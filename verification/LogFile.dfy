/** The log file as the program runs it: allocation, creation, append with extension,
    size update and the resume walk (fat32_log.c:194-424). */
module LogFiles {
  import opened Bytes
  import opened SectorDevice
  import opened Volumes
  import opened FatTable
  import opened Chains
  import opened LogSpec
  import opened Directory
  import opened CrashSafety

  // ---- FAT searches -----------------------------------------------------------------------

  lemma FreeListHead(fat: seq<nat>, lo: nat, hi: nat)
    requires 2 <= lo && hi <= |fat| && hi < EOC_MIN && |FreeList(fat, lo, hi)| > 0
    ensures lo < hi
    ensures fat[lo] == 0 ==> FreeList(fat, lo, hi)[0] == lo && FreeList(fat, lo, hi)[1..] == FreeList(fat, lo + 1, hi)
    ensures fat[lo] != 0 ==> FreeList(fat, lo, hi) == FreeList(fat, lo + 1, hi)
  {}

  /** c is the lowest number from 2 on whose entry, by address, is zero. Numbers without an
      entry read as whatever lies behind FAT copy 0. */
  ghost predicate LowestZero(d: Disk, v: Volume, c: nat) {
    2 <= c && EntryAt(d, v, 0, c) == 0 && forall x: nat :: 2 <= x < c ==> EntryAt(d, v, 0, x) != 0
  }

  /** The unbounded search of an extension. It needs a number at which it stops, because the
      entry is zero or its sector is not on the card, and ends at the lowest number with a
      zero entry. */
  method FindFree(card: SdCard, ring: array<byte>, v: Volume, ghost stop: nat) returns (st: Status, c: nat)
    requires ring.Length >= SECTOR_SIZE && 2 <= stop < U32 && FatSector(v, stop) < U32
    requires FatSector(v, stop) !in card.disk || EntryAt(card.disk, v, 0, stop) == 0
    modifies card`failures, ring
    ensures card.failures == old(card.failures) + Failed(st)
    ensures st in {Ok, SdError}
    ensures st.Ok? ==> c <= stop && LowestZero(card.disk, v, c)
    ensures Upper(ring) == old(Upper(ring))
  {
    hide EntryAt, Upper;
    c := 2;
    while true
      invariant card.failures == old(card.failures)
      invariant 2 <= c <= stop && forall x: nat :: 2 <= x < c ==> EntryAt(card.disk, v, 0, x) != 0
      invariant Upper(ring) == old(Upper(ring))
      decreases stop - c
    {
      var val;
      st, val := FatReadEntry(card, ring, v, c);
      if !st.Ok? {
        return;
      }
      if val == 0 {
        return;
      }
      c := c + 1;
    }
  }

  /** The search ends at the first cluster of the free list if there is one, and otherwise
      at a number outside the range: a full FAT is not noticed. */
  lemma SearchLeavesIff(d: Disk, v: Volume, hi: nat, c: nat)
    requires v.Fits(hi) && LowestZero(d, v, c)
    ensures c >= hi <==> FreeOnDisk(d, v, hi) == []
    ensures FreeOnDisk(d, v, hi) != [] ==> c == FreeOnDisk(d, v, hi)[0]
  {
    hide EntryAt, FreeList;
    var fat := FatView(d, v, 0);
    FreeListSound(fat, 2, hi);
    var free := FreeOnDisk(d, v, hi);
    if c < hi {
      FreeListComplete(fat, 2, hi, c);
      var i :| 0 <= i < |free| && free[i] == c;
      assert free[0] <= c;
    }
    if free != [] {
      assert EntryAt(d, v, 0, free[0]) == 0;
    }
  }

  /** A number past the end of one FAT copy has its entry in the next copy. */
  lemma PastTheEnd(d: Disk, v: Volume, f: nat, x: nat)
    requires v.Layout() && x < v.EntryCount()
    ensures EntryAt(d, v, 0, Times(f, v.EntryCount()) + x) == EntryAt(d, v, f, x)
    ensures FatSector(v, Times(f, v.EntryCount()) + x) == CopySector(v, f, x)
  {
    hide EntryIn;
    PastSectors(v, f);
    var c := Times(f, v.EntryCount()) + x;
    assert c == ENTRIES_PER_SECTOR * Times(f, v.fatSz32) + x;
    assert c / ENTRIES_PER_SECTOR == Times(f, v.fatSz32) + x / ENTRIES_PER_SECTOR;
    assert c % ENTRIES_PER_SECTOR == x % ENTRIES_PER_SECTOR;
  }

  lemma {:induction false} PastSectors(v: Volume, f: nat)
    ensures Times(f, v.EntryCount()) == ENTRIES_PER_SECTOR * Times(f, v.fatSz32)
  {
    if f > 0 {
      PastSectors(v, f - 1);
    }
  }

  /** On a full FAT, with copies in step, the search runs through all copies and on into the
      data region, where the entry it takes for a free cluster belongs to some file. */
  lemma FullSearchReachesData(d: Disk, v: Volume, c: nat)
    requires v.Layout() && CopiesAgree(d, v) && LowestZero(d, v, c)
    requires forall x: nat :: x < v.EntryCount() ==> FatView(d, v, 0)[x] != 0
    ensures FatSector(v, c) >= v.dataLba
  {
    hide EntryAt, CopySector;
    PastSectors(v, v.numFats);
    if c < Times(v.numFats, v.EntryCount()) {
      var f, x := Decompose(c, v.numFats, v.EntryCount());
      assert FatView(d, v, f)[x] == FatView(d, v, 0)[x];
      PastTheEnd(d, v, f, x);
      assert false;
    }
  }

  lemma FirstFreeStops(d: Disk, v: Volume, hi: nat)
    requires v.Fits(hi) && |FreeOnDisk(d, v, hi)| > 0
    ensures var c := FreeOnDisk(d, v, hi)[0]; 2 <= c < hi && EntryAt(d, v, 0, c) == 0 && FatSector(v, c) < U32
  {
    hide FreeList;
    FreeListSound(FatView(d, v, 0), 2, hi);
    CopySectorInFat(v, 0, FreeOnDisk(d, v, hi)[0]);
  }

  /** A store for a cluster that was free on disk d passes through intact states only. */
  method StoreFree(card: SdCard, ring: array<byte>, v: Volume, clus: nat, val: nat,
                   ghost d: Disk, ghost lo: nat, ghost end: nat)
    returns (st: Status, ghost added: seq<Disk>)
    requires ring.Length >= SECTOR_SIZE && v.Layout() && val < ENTRY_LIMIT
    requires clus < v.EntryCount() && EntryAt(d, v, 0, clus) == 0 && Intact(d, card.disk, v, lo, end)
    modifies card, ring
    ensures card.failures == old(card.failures) + Failed(st)
    ensures st in {Ok, SdError}
    ensures st.Ok? ==> card.disk == WriteEntry(old(card.disk), v, clus, val)
    ensures card.hist == old(card.hist) + added
    ensures AllIntact(d, v, lo, end, added) && Intact(d, card.disk, v, lo, end)
    ensures Path(old(card.disk), added, card.disk, [])
    ensures card.erases == old(card.erases)
    ensures Upper(ring) == old(Upper(ring))
  {
    hide EntryAt, Intact, WriteCopies, Upper, Path, CopyTrace;
    ghost var n;
    st, n := FatWriteEntry(card, ring, v, clus, val);
    added := CopyTrace(old(card.disk), v, clus, val, n);
    CopyTracePath(old(card.disk), v, clus, val, n);
    TraceIntact(d, old(card.disk), v, lo, end, clus, val, n);
    StoreIntact(d, old(card.disk), v, lo, end, clus, val, n);
  }

  ghost predicate AllIntact(d: Disk, v: Volume, lo: nat, end: nat, states: seq<Disk>) {
    forall k :: 0 <= k < |states| ==> Intact(d, states[k], v, lo, end)
  }

  /** While the chain is being built, the clusters not yet reached read as before. */
  lemma UnreachedEntry(d: Disk, v: Volume, hi: nat, p: seq<nat>, c: nat)
    requires v.Fits(hi) && 2 <= c < hi && NoDup(p) && forall i :: 0 <= i < |p| ==> 2 <= p[i] < c
    ensures EntryAt(LinkPrefixDisk(d, v, p), v, 0, c) == FatView(d, v, 0)[c]
  {
    hide EntryAt, LinkPrefix, LinkPrefixDisk;
    var e := LinkPrefixDisk(d, v, p);
    LinkPrefixDiskView(d, v, p, 0);
    LinkPrefixAt(FatView(d, v, 0), p);
    assert FatView(e, v, 0)[c] == EntryAt(e, v, 0, c);
  }

  /** Linking clusters that were free keeps everything else intact. */
  lemma {:induction false} LinkPrefixIntact(d: Disk, v: Volume, lo: nat, end: nat, p: seq<nat>)
    requires v.Layout()
    requires forall i :: 0 <= i < |p| ==> p[i] < ENTRY_LIMIT && p[i] < v.EntryCount() && EntryAt(d, v, 0, p[i]) == 0
    ensures Intact(d, LinkPrefixDisk(d, v, p), v, lo, end)
  {
    hide EntryAt;
    if |p| > 1 {
      LinkPrefixIntact(d, v, lo, end, p[..|p| - 1]);
      StoreIntact(d, LinkPrefixDisk(d, v, p[..|p| - 1]), v, lo, end, p[|p| - 2], p[|p| - 1], v.numFats);
    }
  }

  lemma TakenClusters(d: Disk, v: Volume, hi: nat, n: nat)
    requires v.Fits(hi) && n <= |FreeOnDisk(d, v, hi)|
    ensures var p := FreeOnDisk(d, v, hi)[..n];
            && NoDup(p) && Increasing(p) && Clusters(p)
            && forall i :: 0 <= i < |p| ==> 2 <= p[i] < hi && p[i] < ENTRY_LIMIT && EntryAt(d, v, 0, p[i]) == 0
  {
    FreeListSound(FatView(d, v, 0), 2, hi);
  }

  /** The disk once the first k free clusters are linked behind one another. */
  ghost function Partial(d: Disk, v: Volume, hi: nat, k: nat): Disk
    requires v.Fits(hi) && k <= |FreeOnDisk(d, v, hi)|
  {
    TakenClusters(d, v, hi, k);
    LinkPrefixDisk(d, v, FreeOnDisk(d, v, hi)[..k])
  }

  lemma PartialSteps(d: Disk, v: Volume, hi: nat, k: nat)
    requires v.Fits(hi) && k < |FreeOnDisk(d, v, hi)|
    ensures FreeOnDisk(d, v, hi)[k] < ENTRY_LIMIT
    ensures Partial(d, v, hi, 0) == d
    ensures Partial(d, v, hi, k + 1) ==
            if k == 0 then d
            else WriteEntry(Partial(d, v, hi, k), v, FreeOnDisk(d, v, hi)[k - 1], FreeOnDisk(d, v, hi)[k])
  {
    hide FatView, FreeList, WriteEntry, EntryAt;
    var free := FreeOnDisk(d, v, hi);
    TakenClusters(d, v, hi, k + 1);
    hide FreeOnDisk;
    assert free[..k + 1][..k] == free[..k];
  }

  lemma PartialIntact(d: Disk, v: Volume, hi: nat, k: nat, lo: nat, end: nat)
    requires v.Fits(hi) && k <= |FreeOnDisk(d, v, hi)|
    ensures Intact(d, Partial(d, v, hi, k), v, lo, end)
  {
    TakenClusters(d, v, hi, k);
    hide Intact, FreeOnDisk;
    LinkPrefixIntact(d, v, lo, end, FreeOnDisk(d, v, hi)[..k]);
  }

  /** Points free cluster number k-1 at free cluster number k. */
  method LinkBehind(card: SdCard, ring: array<byte>, v: Volume, prev: nat, c: nat,
                    ghost d: Disk, ghost hi: nat, ghost k: nat, ghost lo: nat, ghost end: nat)
    returns (st: Status, ghost added: seq<Disk>)
    requires ring.Length >= SECTOR_SIZE && v.Fits(hi) && 0 < k < |FreeOnDisk(d, v, hi)|
    requires prev == FreeOnDisk(d, v, hi)[k - 1] && c == FreeOnDisk(d, v, hi)[k]
    requires card.disk == Partial(d, v, hi, k)
    modifies card, ring
    ensures card.failures == old(card.failures) + Failed(st)
    ensures st in {Ok, SdError}
    ensures st.Ok? ==> card.disk == Partial(d, v, hi, k + 1)
    ensures card.hist == old(card.hist) + added && AllIntact(d, v, lo, end, added)
    ensures Path(old(card.disk), added, card.disk, [])
    ensures card.erases == old(card.erases)
    ensures Upper(ring) == old(Upper(ring))
  {
    hide Path;
    PartialIntact(d, v, hi, k, lo, end);
    PartialSteps(d, v, hi, k);
    TakenClusters(d, v, hi, k);
    assert prev == FreeOnDisk(d, v, hi)[..k][k - 1];
    hide Partial, Intact, FreeOnDisk, EntryAt, WriteEntry, AllIntact;
    st, added := StoreFree(card, ring, v, prev, c, d, lo, end);
  }

  /** The running variables of the allocation loop: k clusters found below c, the first
      and the latest of them recorded, the rest of the free list still ahead. */
  ghost predicate Progress(d: Disk, v: Volume, hi: nat, k: nat, c: nat, first: nat, prev: nat)
    requires v.Fits(hi)
  {
    var free := FreeOnDisk(d, v, hi);
    && k <= |free| && 2 <= c <= hi
    && free[k..] == FreeList(FatView(d, v, 0), c, hi)
    && (forall i :: 0 <= i < k ==> 2 <= free[i] < c)
    && if k == 0 then prev == 0 else first == free[0] && prev == free[k - 1]
  }

  /** Reading the FAT while the chain is being built: clusters not yet reached are as
      they were, so a zero entry is the next cluster of the free list. */
  lemma NextFree(d: Disk, v: Volume, hi: nat, k: nat, c: nat, first: nat, prev: nat)
    requires v.Fits(hi) && Progress(d, v, hi, k, c, first, prev) && k < |FreeOnDisk(d, v, hi)|
    ensures c < hi && (prev != 0 <==> k > 0) && (k > 0 ==> prev == FreeOnDisk(d, v, hi)[k - 1])
    ensures EntryAt(Partial(d, v, hi, k), v, 0, c) != 0 ==> Progress(d, v, hi, k, c + 1, first, prev)
    ensures EntryAt(Partial(d, v, hi, k), v, 0, c) == 0 ==>
              FreeOnDisk(d, v, hi)[k] == c && Progress(d, v, hi, k + 1, c + 1, if k == 0 then c else first, c)
  {
    hide FatView, EntryAt, LinkPrefixDisk, FreeList;
    var free := FreeOnDisk(d, v, hi);
    TakenClusters(d, v, hi, k);
    FreeListHead(FatView(d, v, 0), c, hi);
    UnreachedEntry(d, v, hi, free[..k], c);
    assert free[k..][0] == free[k] && free[k..][1..] == free[k + 1..];
  }

  /** Single-pass allocation: each free cluster found is linked behind the previous one.
      On success the FAT is that of the n lowest free clusters linked in increasing
      order; every state on the way, also of a failed run, leaves what was in use intact. */
  method AllocateChain(card: SdCard, ring: array<byte>, v: Volume, n: nat, ghost hi: nat, ghost lo: nat, ghost end: nat)
    returns (st: Status, first: nat, last: nat, ghost added: seq<Disk>)
    requires ring.Length >= SECTOR_SIZE && v.Fits(hi) && 1 <= n <= |FreeOnDisk(card.disk, v, hi)|
    modifies card, ring
    ensures card.failures == old(card.failures) + Failed(st)
    ensures st in {Ok, SdError}
    ensures st.Ok? ==>
              var p := FreeOnDisk(old(card.disk), v, hi)[..n];
              && (forall i :: 0 <= i < |p| ==> p[i] < ENTRY_LIMIT)
              && first == p[0] && last == p[n - 1] && card.disk == LinkDisk(old(card.disk), v, p)
    ensures card.hist == old(card.hist) + added && AllIntact(old(card.disk), v, lo, end, added)
    ensures Path(old(card.disk), added, card.disk, [])
    ensures st.Ok? ==> Intact(old(card.disk), card.disk, v, lo, end)
    ensures card.erases == old(card.erases)
    ensures Upper(ring) == old(Upper(ring))
  {
    hide FatView, FreeList, FreeOnDisk, EntryAt, Partial, AllIntact, WriteEntry, Upper, Progress, Path;
    ghost var d := card.disk;
    first, last, added := 0, 0, [];
    PathNone(d, []);
    ProgressStart(d, v, hi);
    PartialSteps(d, v, hi, 0);
    assert Progress(d, v, hi, 0, 2, 0, 0);
    AllIntactNone(d, v, lo, end);
    var prev, found, c := 0, 0, 2;
    while found < n
      invariant card.failures == old(card.failures)
      invariant found <= n && c <= hi && Progress(d, v, hi, found, c, first, prev)
      invariant found > 0 ==> last == prev
      invariant card.disk == Partial(d, v, hi, found)
      invariant card.hist == old(card.hist) + added && AllIntact(d, v, lo, end, added)
      invariant Path(d, added, card.disk, [])
      invariant card.erases == old(card.erases)
      invariant Upper(ring) == old(Upper(ring))
      decreases hi - c
    {
      NextFree(d, v, hi, found, c, first, prev);
      var val;
      st, val := FatReadEntry(card, ring, v, c);
      if !st.Ok? {
        return;
      }
      if val == 0 {
        if found == 0 {
          first := c;
        }
        PartialSteps(d, v, hi, found);
        if prev != 0 {
          ghost var more, m := [], card.disk;
          st, more := LinkBehind(card, ring, v, prev, c, d, hi, found, lo, end);
          AllIntactMore(d, v, lo, end, added, more);
          PathJoin(d, added, m, more, card.disk, []);
          added := added + more;
          if !st.Ok? {
            return;
          }
        }
        prev := c;
        last := c;
        found := found + 1;
      }
      c := c + 1;
    }
    ghost var more, m := [], card.disk;
    st, more := EndChain(card, ring, v, last, d, hi, n, c, first, lo, end);
    AllIntactMore(d, v, lo, end, added, more);
    PathJoin(d, added, m, more, card.disk, []);
    added := added + more;
  }

  lemma ProgressStart(d: Disk, v: Volume, hi: nat)
    requires v.Fits(hi)
    ensures Progress(d, v, hi, 0, 2, 0, 0)
  {}

  lemma AllIntactNone(d: Disk, v: Volume, lo: nat, end: nat)
    ensures AllIntact(d, v, lo, end, [])
  {}

  /** The end-of-chain mark behind the last cluster found. */
  method EndChain(card: SdCard, ring: array<byte>, v: Volume, last: nat,
                  ghost d: Disk, ghost hi: nat, ghost n: nat, ghost c: nat, ghost first: nat, ghost lo: nat,
                  ghost end: nat)
    returns (st: Status, ghost added: seq<Disk>)
    requires ring.Length >= SECTOR_SIZE && v.Fits(hi) && 1 <= n <= |FreeOnDisk(d, v, hi)|
    requires Progress(d, v, hi, n, c, first, last) && card.disk == Partial(d, v, hi, n)
    modifies card, ring
    ensures card.failures == old(card.failures) + Failed(st)
    ensures st in {Ok, SdError}
    ensures st.Ok? ==>
              var p := FreeOnDisk(d, v, hi)[..n];
              && (forall i :: 0 <= i < |p| ==> p[i] < ENTRY_LIMIT)
              && first == p[0] && last == p[n - 1] && card.disk == LinkDisk(d, v, p)
    ensures card.hist == old(card.hist) + added && AllIntact(d, v, lo, end, added)
    ensures Path(old(card.disk), added, card.disk, [])
    ensures Intact(d, card.disk, v, lo, end)
    ensures card.erases == old(card.erases)
    ensures Upper(ring) == old(Upper(ring))
  {
    hide Path;
    assert first == FreeOnDisk(d, v, hi)[0] && last == FreeOnDisk(d, v, hi)[n - 1];
    hide Progress, FreeOnDisk, EntryAt, AllIntact, WriteEntry, Upper, Intact;
    PartialIntact(d, v, hi, n, lo, end);
    PartialComplete(d, v, hi, n);
    TakenClusters(d, v, hi, n);
    assert last == FreeOnDisk(d, v, hi)[..n][n - 1];
    hide Partial, LinkDisk;
    st, added := StoreFree(card, ring, v, last, EOC, d, lo, end);
  }

  lemma PartialComplete(d: Disk, v: Volume, hi: nat, n: nat)
    requires v.Fits(hi) && 1 <= n <= |FreeOnDisk(d, v, hi)|
    ensures var p := FreeOnDisk(d, v, hi)[..n];
            && (forall i :: 0 <= i < |p| ==> p[i] < ENTRY_LIMIT)
            && LinkDisk(d, v, p) == WriteEntry(Partial(d, v, hi, n), v, p[n - 1], EOC)
  {
    hide FreeOnDisk, WriteEntry, LinkPrefixDisk, EntryAt, NoDup, Increasing;
    TakenClusters(d, v, hi, n);
  }

  lemma AllIntactMore(d: Disk, v: Volume, lo: nat, end: nat, a: seq<Disk>, b: seq<Disk>)
    requires AllIntact(d, v, lo, end, a) && AllIntact(d, v, lo, end, b)
    ensures AllIntact(d, v, lo, end, a + b)
  {}

  // ---- the data region and the directory ----------------------------------------------------

  lemma ZeroNext(d: Disk, lo: nat, i: nat, end: nat)
    requires lo <= i < end
    ensures ZeroRange(d, lo, i + 1) == ZeroRange(d, lo, i)[i := ZeroSector()]
    ensures SameOutside(d, ZeroRange(d, lo, i), lo, end) && SameOutside(d, ZeroRange(d, lo, i + 1), lo, end)
  {
    ZeroRangeGet(d, lo, i);
    ZeroRangeGet(d, lo, i + 1);
  }

  method ZeroFill(card: SdCard, lo: nat, end: nat) returns (st: Status, ghost added: seq<Disk>)
    modifies card
    ensures card.failures == old(card.failures) + Failed(st)
    ensures st in {Ok, SdError}
    ensures st.Ok? ==> card.disk == ZeroRange(old(card.disk), lo, end)
    ensures card.hist == old(card.hist) + added && AllSameOutside(old(card.disk), lo, end, added)
    ensures SameOutside(old(card.disk), card.disk, lo, end)
    ensures Path(old(card.disk), added, card.disk, [])
    ensures card.erases == old(card.erases)
  {
    hide Path;
    assert SameOutside(card.disk, card.disk, lo, end);
    hide ZeroRange, SameOutside;
    added := [];
    PathNone(card.disk, []);
    assert ZeroRange(card.disk, lo, lo) == card.disk by { ZeroNone(card.disk, lo, lo); }
    ZeroNone(card.disk, lo, end);
    var i := lo;
    while i < end
      invariant card.failures == old(card.failures)
      invariant i == lo || lo <= i <= end
      invariant card.disk == ZeroRange(old(card.disk), lo, i) && SameOutside(old(card.disk), card.disk, lo, end)
      invariant card.hist == old(card.hist) + added && AllSameOutside(old(card.disk), lo, end, added)
      invariant Path(old(card.disk), added, card.disk, [])
      invariant card.erases == old(card.erases)
    {
      ghost var before, m := card.hist, card.disk;
      ZeroNext(old(card.disk), lo, i, end);
      st := card.WriteZeroSector(i);
      if card.hist != before {
        PathWrite(old(card.disk), added, m, card.disk, [], i, ZeroSector());
        added := added + [card.disk];
      }
      if !st.Ok? {
        return;
      }
      i := i + 1;
    }
    st := Ok;
  }

  lemma ZeroNone(d: Disk, lo: nat, end: nat)
    ensures end <= lo ==> ZeroRange(d, lo, end) == d
  {}

  /** Zero-filling overwrites whatever an erase command left in the region. */
  lemma ZeroAfterErase(d: Disk, e: Disk, lo: nat, end: nat)
    requires SameOutside(d, e, lo, end) && d.Keys == e.Keys
    ensures ZeroRange(e, lo, end) == ZeroRange(d, lo, end)
  {
    ZeroRangeGet(d, lo, end);
    ZeroRangeGet(e, lo, end);
    var a, b := ZeroRange(d, lo, end), ZeroRange(e, lo, end);
    forall l: nat | l in a ensures l in b && a[l] == b[l] {
      assert Get(a, l) == Get(b, l);
    }
    forall l: nat | l in b ensures l in a {
      assert Get(a, l) == Get(b, l);
    }
  }

  /** Erase command and zero-fill of [lo, end). */
  method EraseAndZero(card: SdCard, lo: nat, end: nat) returns (st: Status, ghost added: seq<Disk>)
    requires lo < end
    modifies card
    ensures card.failures == old(card.failures) + Failed(st)
    ensures st in {Ok, SdError}
    ensures st.Ok? ==> card.disk == ZeroRange(old(card.disk), lo, end)
    ensures card.hist == old(card.hist) + added && AllSameOutside(old(card.disk), lo, end, added)
    ensures SameOutside(old(card.disk), card.disk, lo, end)
    ensures Path(old(card.disk), added, card.disk, EraseOf(lo, end))
    ensures card.erases == old(card.erases) + EraseOf(lo, end)
  {
    hide Path;
    ghost var d := card.disk;
    card.Erase(lo, end - 1);
    ghost var e := card.disk;
    ErasePath(d, e, lo, end - 1);
    assert SameOutside(d, e, lo, end);
    ZeroAfterErase(d, e, lo, end);
    hide ZeroRange;
    ghost var more;
    st, more := ZeroFill(card, lo, end);
    added := [e] + more;
    PathMore(e, more, card.disk, [], EraseOf(lo, end));
    PathJoin(d, [e], e, more, card.disk, EraseOf(lo, end));
    forall k | 0 <= k < |added| ensures SameOutside(d, added[k], lo, end) {
      if k > 0 { assert SameOutside(e, more[k - 1], lo, end); }
    }
  }

  lemma ErasePath(d: Disk, e: Disk, first: nat, last: nat)
    requires forall l: nat :: !(first <= l <= last) ==> Get(e, l) == Get(d, l)
    ensures Path(d, [e], e, [Extent(first, last)])
  {
    hide Get;
    var xs := [Extent(first, last)];
    assert ChangedWithin(d, e, xs[0].first, xs[0].last);
    PathNone(d, xs);
    PathNext(d, [], d, e, xs);
    assert [] + [e] == [e];
  }

  /** The fields of a cleared slot, filled in one after another. */
  lemma EntryByFields(name: seq<byte>, first: nat, size: nat)
    requires |name| == 11 && first < U32 && size < U32
    ensures var named := Splice(Splice(Zeros(32), 0, name), 11, [ARCHIVE]);
            var linked := Splice(Splice(named, 20, Bytes16(first / U16)), 26, Bytes16(first % U16));
            DirEntry(name, first, size) == Splice(linked, SIZE_FIELD, Bytes32(size))
  {}

  /** memset of the slot, then the fields one by one. */
  method FillEntry(buf: array<byte>, off: nat, name: seq<byte>, first: nat, size: nat)
    requires |name| == 11 && first < U32 && size < U32 && off + 32 <= SECTOR_SIZE <= buf.Length
    modifies buf
    ensures buf[..SECTOR_SIZE] == Splice(old(buf[..SECTOR_SIZE]), off, DirEntry(name, first, size))
    ensures Upper(buf) == old(Upper(buf))
  {
    hide Splice, DirEntry, Bytes16, Bytes32;
    ghost var was, e := buf[..], Zeros(32);
    StoreBytes(buf, off, Zeros(32));
    e := StoreField(buf, off, 0, name, was, e);
    e := StoreField(buf, off, 11, [ARCHIVE], was, e);
    e := StoreField(buf, off, 20, Bytes16(first / U16), was, e);
    e := StoreField(buf, off, 26, Bytes16(first % U16), was, e);
    e := StoreField(buf, off, SIZE_FIELD, Bytes32(size), was, e);
    EntryByFields(name, first, size);
    SpliceBelow(was, off, e, SECTOR_SIZE);
    assert buf[..SECTOR_SIZE] == buf[..][..SECTOR_SIZE] && was[..SECTOR_SIZE] == old(buf[..SECTOR_SIZE]);
    assert buf[SECTOR_SIZE..] == buf[..][SECTOR_SIZE..] && was[SECTOR_SIZE..] == old(buf[SECTOR_SIZE..]);
  }

  /** One field of the slot at off, whose bytes so far are e. */
  method StoreField(buf: array<byte>, off: nat, at: nat, b: seq<byte>, ghost was: seq<byte>, ghost e: seq<byte>)
    returns (ghost e': seq<byte>)
    requires off + |e| <= |was| && at + |b| <= |e| && buf[..] == Splice(was, off, e)
    modifies buf
    ensures e' == Splice(e, at, b) && buf[..] == Splice(was, off, e')
  {
    SpliceInto(was, off, e, at, b);
    StoreBytes(buf, off + at, b);
    e' := Splice(e, at, b);
  }

  /** Read, fill and write back the directory sector. */
  method InsertEntry(card: SdCard, ring: array<byte>, lba: nat, off: nat, name: seq<byte>, first: nat, size: nat)
    returns (st: Status)
    requires |name| == 11 && first < U32 && size < U32 && off + 32 <= SECTOR_SIZE <= ring.Length
    modifies card, ring
    ensures card.failures == old(card.failures) + Failed(st)
    ensures st in {Ok, SdError}
    ensures card.erases == old(card.erases)
    ensures (card.disk == old(card.disk) && card.hist == old(card.hist)) ||
            (&& card.disk == old(card.disk)[lba := Splice(Get(old(card.disk), lba), off, DirEntry(name, first, size))]
             && card.hist == old(card.hist) + [card.disk])
    ensures st.Ok? ==> card.hist != old(card.hist)
    ensures Upper(ring) == old(Upper(ring))
  {
    hide DirEntry, Upper;
    st := card.ReadSector(lba, ring);
    if !st.Ok? {
      return;
    }
    FillEntry(ring, off, name, first, size);
    st := card.WriteSector(lba, ring);
  }

  /** The size field of the directory entry, updated in place. */
  method RewriteSize(card: SdCard, ring: array<byte>, lba: nat, off: nat, size: nat) returns (st: Status)
    requires size < U32 && off + 32 <= SECTOR_SIZE <= ring.Length
    modifies card, ring
    ensures card.failures == old(card.failures) + Failed(st)
    ensures st in {Ok, SdError}
    ensures card.erases == old(card.erases)
    ensures (card.disk == old(card.disk) && card.hist == old(card.hist)) || card.disk ==
            old(card.disk)[lba := WithSize(Get(old(card.disk), lba), off, size)]
    ensures st.Ok? ==> card.disk == old(card.disk)[lba := WithSize(Get(old(card.disk), lba), off, size)]
    ensures Upper(ring) == old(Upper(ring))
  {
    st := card.ReadSector(lba, ring);
    if !st.Ok? {
      return;
    }
    ghost var was := ring[..];
    SpliceBelow(was, off + SIZE_FIELD, Bytes32(size), SECTOR_SIZE);
    assert was[..SECTOR_SIZE] == ring[..SECTOR_SIZE] && was[SECTOR_SIZE..] == ring[SECTOR_SIZE..];
    StoreBytes(ring, off + SIZE_FIELD, Bytes32(size));
    assert ring[..SECTOR_SIZE] == ring[..][..SECTOR_SIZE] && ring[SECTOR_SIZE..] == ring[..][SECTOR_SIZE..];
    st := card.WriteSector(lba, ring);
  }

  // ---- the open log file ------------------------------------------------------------------------

  /** Two spans of a buffer, one after the other. */
  function Spans(buf: seq<byte>, offA: nat, lenA: nat, offB: nat, lenB: nat): (data: Sector)
    requires lenA + lenB == SECTOR_SIZE && offA + lenA <= |buf| && offB + lenB <= |buf|
  {
    buf[offA..offA + lenA] + buf[offB..offB + lenB]
  }

  function EntryCluster(s: Slot): nat { Le16(s, 20) * U16 + Le16(s, 26) }

  function EntrySize(s: Slot): nat { Le32(s, SIZE_FIELD) }

  /** The log as resume sets it up from a directory entry and the recovery record. */
  function ResumeState(v: Volume, s: Slot, lba: nat, off: nat, recorded: nat, prealloc: nat, last: nat): LogState {
    var start := ClusToLba(v, EntryCluster(s));
    LogState(EntryCluster(s), (start + recorded / SECTOR_SIZE) % U32, (start + prealloc / SECTOR_SIZE) % U32,
             lba, off, recorded, prealloc, last)
  }

  /** The stretch of sectors creation erases and fills: it starts at the first cluster
      taken and counts addresses from there. */
  ghost predicate FillRegion(d: Disk, v: Volume, hi: nat, size: nat, lo: nat, end: nat)
    requires v.Fits(hi)
  {
    |FreeOnDisk(d, v, hi)| > 0 && lo == ClusToLba(v, FreeOnDisk(d, v, hi)[0]) && end == (lo + size / SECTOR_SIZE) % U32
  }

  lemma RegionInData(d: Disk, v: Volume, hi: nat, size: nat, lo: nat, end: nat)
    requires v.Fits(hi) && FillRegion(d, v, hi, size, lo, end)
    ensures lo >= v.dataLba && 2 <= FreeOnDisk(d, v, hi)[0] < hi && lo == ClusterStart(v, FreeOnDisk(d, v, hi)[0])
  {
    TakenClusters(d, v, hi, 1);
    assert FreeOnDisk(d, v, hi)[..1][0] == FreeOnDisk(d, v, hi)[0];
    hide FreeOnDisk, ClusToLba;
    NoWrap(v, hi, FreeOnDisk(d, v, hi)[0]);
  }

  /** The states of the fill phase. */
  lemma FillIntact(d: Disk, e: Disk, v: Volume, lo: nat, end: nat, states: seq<Disk>)
    requires v.Layout() && Intact(d, e, v, lo, end) && lo >= v.dataLba && AllSameOutside(e, lo, end, states)
    ensures AllIntact(d, v, lo, end, states)
  {
    forall k | 0 <= k < |states| ensures Intact(d, states[k], v, lo, end) {
      assert SameOutside(e, states[k], lo, end);
      RegionIntact(d, e, states[k], v, lo, end);
    }
  }

  /** Erasing and filling the region passes through intact states only. */
  method FillSafely(card: SdCard, v: Volume, lo: nat, end: nat, ghost d: Disk)
    returns (st: Status, ghost added: seq<Disk>)
    requires lo < end && v.Layout() && lo >= v.dataLba && Intact(d, card.disk, v, lo, end)
    modifies card
    ensures card.failures == old(card.failures) + Failed(st)
    ensures st in {Ok, SdError}
    ensures st.Ok? ==> card.disk == ZeroRange(old(card.disk), lo, end)
    ensures card.hist == old(card.hist) + added && AllIntact(d, v, lo, end, added)
    ensures Path(old(card.disk), added, card.disk, EraseOf(lo, end))
    ensures card.erases == old(card.erases) + EraseOf(lo, end)
  {
    hide Intact, ZeroRange, AllSameOutside, SameOutside, Path;
    ghost var e := card.disk;
    st, added := EraseAndZero(card, lo, end);
    FillIntact(d, e, v, lo, end, added);
  }

  /** After every write of a creation: the old volume is intact, or creation is complete. */
  ghost predicate AllSafe(d: Disk, v: Volume, lo: nat, end: nat, complete: Disk, states: seq<Disk>) {
    forall k :: 0 <= k < |states| ==>
      Intact(d, states[k], v, lo, end) || (k == |states| - 1 && states[k] == complete)
  }

  /** The sector of the last FAT copy that holds the entry of an extension's new cluster. */
  function LastFatSector(d: Disk, v: Volume, hi: nat, s: LogState): Sector
    requires v.Fits(hi) && |FreeOnDisk(d, v, hi)| > 0
  {
    var (e, t) := Extend(d, v, hi, s);
    Get(e, CopySector(v, v.numFats - 1, t.lastClus))
  }

  /** The ring when an append hands its spans to the card: an extension has used the lower
      half for the FAT and left that sector there. */
  function RingAtSend(cells: seq<byte>, d: Disk, v: Volume, hi: nat, s: LogState): (r: seq<byte>)
    requires |cells| >= SECTOR_SIZE && v.Fits(hi) && (Full(s) ==> |FreeOnDisk(d, v, hi)| > 0)
    ensures |r| == |cells|
  {
    if Full(s) then LastFatSector(d, v, hi, s) + cells[SECTOR_SIZE..] else cells
  }

  /** What a failed append may leave: nothing done, an extension cut short, or all done but
      the count of the sector, which is then on the card or not. */
  ghost predicate AppendFailed(d: Disk, e: Disk, v: Volume, hi: nat, s: LogState, t: LogState, data: Sector)
    requires v.Fits(hi) && (Full(s) ==> |FreeOnDisk(d, v, hi)| > 0)
  {
    if Full(s) then
      FreeListSound(FatView(d, v, 0), 2, hi);
      var (x, y) := Extend(d, v, hi, s);
      || (t == s && (e == d || DuringExtension(d, v, s.lastClus, y.lastClus, e)))
      || (t == y && (e == x || e == Put(x, y, data).0))
    else
      t == s && (e == d || e == Put(d, s, data).0)
  }

  /** The two stores of an extension: cluster c behind `last`, then the end mark. */
  method StoreLinkAndEnd(card: SdCard, ring: array<byte>, v: Volume, last: nat, c: nat)
    returns (st: Status, ghost added: seq<Disk>)
    requires ring.Length >= SECTOR_SIZE && v.Layout() && c < ENTRY_LIMIT
    modifies card, ring
    ensures card.failures == old(card.failures) + Failed(st)
    ensures st in {Ok, SdError}
    ensures st.Ok? ==>
              && card.disk == WriteEntry(WriteEntry(old(card.disk), v, last, c), v, c, EOC)
              && card.disk == AfterStores(old(card.disk), v, last, c, 2 * v.numFats)
              && ring[..SECTOR_SIZE] == Get(card.disk, CopySector(v, v.numFats - 1, c))
    ensures DuringExtension(old(card.disk), v, last, c, card.disk)
    ensures card.hist == old(card.hist) + added && AllDuring(old(card.disk), v, last, c, added)
    ensures Path(old(card.disk), added, card.disk, [])
    ensures card.erases == old(card.erases)
    ensures Upper(ring) == old(Upper(ring))
  {
    hide Upper, WriteCopies, CopyTrace, DuringExtension, AllDuring, AfterStores, CopySector, Path;
    ghost var d, n := card.disk, 0;
    st, n := FatWriteEntry(card, ring, v, last, c);
    LinkPhase(d, v, last, c, n);
    CopyTracePath(d, v, last, c, n);
    added := CopyTrace(d, v, last, c, n);
    if !st.Ok? {
      return;
    }
    ghost var e := card.disk;
    st, n := FatWriteEntry(card, ring, v, c, EOC);
    EndMarkPhase(d, v, last, c, n);
    DuringMore(d, v, last, c, added, CopyTrace(e, v, c, EOC, n));
    CopyTracePath(e, v, c, EOC, n);
    PathJoin(d, added, e, CopyTrace(e, v, c, EOC, n), card.disk, []);
    added := added + CopyTrace(e, v, c, EOC, n);
  }

  /** Erasing and filling the cluster an extension has linked. */
  method FillNewCluster(card: SdCard, v: Volume, c: nat, ghost d: Disk, ghost last: nat, ghost hi: nat)
    returns (st: Status, end: nat, ghost added: seq<Disk>)
    requires v.Fits(hi) && 2 <= c < hi && c < ENTRY_LIMIT && card.disk == AfterStores(d, v, last, c, 2 * v.numFats)
    modifies card
    ensures card.failures == old(card.failures) + Failed(st)
    ensures st in {Ok, SdError} && end == (ClusToLba(v, c) + v.secPerClus) % U32
    ensures st.Ok? ==> card.disk == ZeroRange(old(card.disk), ClusToLba(v, c), end)
    ensures Get(card.disk, CopySector(v, v.numFats - 1, c)) == Get(old(card.disk), CopySector(v, v.numFats - 1, c))
    ensures DuringExtension(d, v, last, c, card.disk)
    ensures card.hist == old(card.hist) + added && AllDuring(d, v, last, c, added)
    ensures Path(old(card.disk), added, card.disk, EraseOf(ClusToLba(v, c), ClusToLba(v, c) + v.secPerClus))
  {
    hide ClusToLba, ZeroRange, DuringExtension, AllDuring, AfterStores, SameOutside, AllSameOutside, CopySector, Path;
    NoWrap(v, hi, c);
    var lba := ClusToLba(v, c);
    end := (lba + v.secPerClus) % U32;
    ghost var e := card.disk;
    st, added := EraseAndZero(card, lba, end);
    FillPhase(d, v, last, c, added, card.disk);
    FatSectorKept(v, e, card.disk, v.numFats - 1, c, lba, end);
  }

  /** The second half of a creation: the region, then the directory entry. */
  method FillAndInsert(card: SdCard, ring: array<byte>, v: Volume, lo: nat, end: nat, emptyLba: nat, emptyOff: nat,
                       name: seq<byte>, first: nat, size: nat, ghost d: Disk, ghost complete: Disk,
                       ghost sofar: seq<Disk>)
    returns (st: Status, ghost added: seq<Disk>)
    requires Path(d, sofar, card.disk, []) && AllIntact(d, v, lo, end, sofar)
    requires ring.Length >= SECTOR_SIZE && |name| == 11 && first < U32 && size < U32 && emptyOff + 32 <= SECTOR_SIZE
    requires lo < end && v.Layout() && lo >= v.dataLba && Intact(d, card.disk, v, lo, end)
    requires var e := ZeroRange(card.disk, lo, end);
             complete == e[emptyLba := Splice(Get(e, emptyLba), emptyOff, DirEntry(name, first, size))]
    modifies card, ring
    ensures card.failures == old(card.failures) + Failed(st)
    ensures st in {Ok, SdError} && (st.Ok? ==> card.disk == complete)
    ensures card.hist == old(card.hist) + added && AllSafe(d, v, lo, end, complete, sofar + added)
    ensures Path(d, sofar + added, card.disk, EraseOf(lo, end))
    ensures card.erases == old(card.erases) + EraseOf(lo, end)
  {
    hide Path, AllIntact, Intact, ZeroRange, Splice, DirEntry, AllSafe, Get;
    ghost var d0 := card.disk;
    st, added := FillSafely(card, v, lo, end, d);
    PathMore(d, sofar, d0, [], EraseOf(lo, end));
    PathJoin(d, sofar, d0, added, card.disk, EraseOf(lo, end));
    AllIntactMore(d, v, lo, end, sofar, added);
    ghost var all := sofar + added;
    SafeSoFar(d, v, lo, end, complete, all);
    if !st.Ok? {
      return;
    }
    ghost var before, m := card.hist, card.disk;
    st := InsertEntry(card, ring, emptyLba, emptyOff, name, first, size);
    if card.hist != before {
      SafeAtLast(d, v, lo, end, complete, all);
      PathWrite(d, all, m, card.disk, EraseOf(lo, end), emptyLba,
                Splice(Get(m, emptyLba), emptyOff, DirEntry(name, first, size)));
      added := added + [card.disk];
      assert sofar + added == all + [card.disk];
    }
  }

  class LogFile {
    var firstClus: nat
    var curLba: nat
    var endLba: nat
    var dirLba: nat
    var dirOffset: nat
    var bytesWritten: nat
    var preallocSize: nat
    var lastClus: nat

    constructor ()
      ensures View() == LogState(0, 0, 0, 0, 0, 0, 0, 0)
    {
      firstClus, curLba, endLba, dirLba := 0, 0, 0, 0;
      dirOffset, bytesWritten, preallocSize, lastClus := 0, 0, 0, 0;
    }

    function View(): LogState
      reads this
    {
      LogState(firstClus, curLba, endLba, dirLba, dirOffset, bytesWritten, preallocSize, lastClus)
    }

    /** The create path after the name search. Its success is LogSpec.Create; on every
        prefix of its sector writes the old volume is intact, because the directory entry
        is written last. */
    method Create(card: SdCard, ring: array<byte>, v: Volume, name: seq<byte>, size: nat, emptyLba: nat, emptyOff: nat,
                  ghost hi: nat, ghost lo: nat, ghost end: nat)
      returns (st: Status, ghost added: seq<Disk>)
      requires ring.Length >= SECTOR_SIZE && |name| == 11 && SECTOR_SIZE <= size < U32
      requires emptyOff + 32 <= SECTOR_SIZE && v.Fits(hi)
      requires ClustersFor(v, size / SECTOR_SIZE) <= |FreeOnDisk(card.disk, v, hi)|
      requires FillRegion(card.disk, v, hi, size, lo, end)
      modifies this, card, ring
      ensures card.failures == old(card.failures) + Failed(st)
      ensures st in {Ok, SdError}
      ensures st.Ok? ==> (card.disk, View()) == LogSpec.Create(old(card.disk), v, hi, name, size, emptyLba, emptyOff)
      ensures card.hist == old(card.hist) + added
      ensures AllSafe(old(card.disk), v, lo, end,
                      LogSpec.Create(old(card.disk), v, hi, name, size, emptyLba, emptyOff).0, added)
      ensures Path(old(card.disk), added, card.disk, EraseOf(lo, end))
      ensures card.erases == old(card.erases) || card.erases == old(card.erases) + EraseOf(lo, end)
    {
      hide Path, AllIntact, AllSameOutside, Intact, LinkDisk, ZeroRange, FreeOnDisk, Upper, ClusToLba, ClustersFor,
           DirEntry, FillRegion, LogSpec.Create, AllSafe, Splice, FatView, FreeList;
      ghost var d := card.disk;
      var nSectors := size / SECTOR_SIZE;
      var nClus := ClustersFor(v, nSectors);
      RegionInData(d, v, hi, size, lo, end);
      CreateParts(d, v, hi, name, size, emptyLba, emptyOff, lo, end);
      ghost var complete := LogSpec.Create(d, v, hi, name, size, emptyLba, emptyOff).0;
      var first, last;
      st, first, last, added := AllocateChain(card, ring, v, nClus, hi, lo, end);
      if !st.Ok? {
        PathMore(d, added, card.disk, [], EraseOf(lo, end));
        SafeSoFar(d, v, lo, end, complete, added);
        return;
      }
      firstClus, lastClus, curLba := first, last, ClusToLba(v, first);
      endLba, dirLba, dirOffset := (curLba + nSectors) % U32, emptyLba, emptyOff;
      bytesWritten, preallocSize := 0, size;
      ghost var more := [];
      st, more := FillAndInsert(card, ring, v, curLba, endLba, emptyLba, emptyOff, name, first, size, d, complete,
                                added);
      added := added + more;
    }

    /** One more cluster behind the last one. The lower half of the ring is left with the FAT
        sector stored last. The card only passes through states that belong to this
        extension, whether it succeeds or not. */
    method ExtendByOne(card: SdCard, ring: array<byte>, v: Volume, ghost hi: nat)
      returns (st: Status, ghost added: seq<Disk>)
      requires ring.Length >= SECTOR_SIZE && v.Fits(hi) && |FreeOnDisk(card.disk, v, hi)| > 0
      modifies this, card, ring
      ensures card.failures == old(card.failures) + Failed(st)
      ensures st in {Ok, SdError}
      ensures FreeOnDisk(old(card.disk), v, hi)[0] < ENTRY_LIMIT
      ensures st.Ok? ==> (card.disk, View()) == Extend(old(card.disk), v, hi, old(View()))
      ensures st.Ok? ==> ring[..SECTOR_SIZE] == Get(card.disk, CopySector(v, v.numFats - 1, lastClus))
      ensures !st.Ok? ==> View() == old(View())
      ensures !st.Ok? ==> card.disk == old(card.disk) ||
                          DuringExtension(old(card.disk), v, lastClus, FreeOnDisk(old(card.disk), v, hi)[0], card.disk)
      ensures card.hist == old(card.hist) + added
      ensures AllDuring(old(card.disk), v, old(lastClus), FreeOnDisk(old(card.disk), v, hi)[0], added)
      ensures var lba := ClusToLba(v, FreeOnDisk(old(card.disk), v, hi)[0]);
              Path(old(card.disk), added, card.disk, EraseOf(lba, lba + v.secPerClus))
      ensures Upper(ring) == old(Upper(ring))
    {
      hide ClusToLba, Upper, FatView, FreeList, ZeroRange, WriteEntry, DuringExtension, AllDuring, AfterStores,
           SameOutside, AllSameOutside, CopySector, Path;
      ghost var d, last := card.disk, lastClus;
      FreeListSound(FatView(d, v, 0), 2, hi);
      added := [];
      var c;
      ghost var c0, more := FreeOnDisk(d, v, hi)[0], [];
      NothingDuring(d, v, last, c0);
      ghost var xs := EraseOf(ClusToLba(v, c0), ClusToLba(v, c0) + v.secPerClus);
      PathNone(d, xs);
      FirstFreeStops(d, v, hi);
      st, c := FindFree(card, ring, v, c0);
      if !st.Ok? {
        return;
      }
      SearchLeavesIff(d, v, hi, c);
      hide FreeOnDisk, LowestZero;
      st, added := StoreLinkAndEnd(card, ring, v, lastClus, c);
      PathMore(d, added, card.disk, [], xs);
      if !st.Ok? {
        return;
      }
      ghost var e := card.disk;
      var end;
      st, end, more := FillNewCluster(card, v, c, d, last, hi);
      DuringMore(d, v, last, c, added, more);
      PathJoin(d, added, e, more, card.disk, xs);
      added := added + more;
      if !st.Ok? {
        return;
      }
      endLba := end;
      lastClus := c;
    }

    /** One 512-byte append. The sector written is what the spans hold when the card is
        given them; an extension has by then overwritten the lower half of the ring. */
    method AppendSector(card: SdCard, ring: array<byte>, v: Volume, offA: nat, lenA: nat, offB: nat, lenB: nat,
                        ghost hi: nat)
      returns (st: Status)
      requires ring.Length >= SECTOR_SIZE && lenA + lenB == SECTOR_SIZE
      requires offA + lenA <= ring.Length && offB + lenB <= ring.Length
      requires StateOk(View()) && v.Fits(hi) && (Full(View()) ==> |FreeOnDisk(card.disk, v, hi)| > 0)
      modifies this, card, ring
      ensures card.failures == old(card.failures) + Failed(st)
      ensures st in {Ok, SdError}
      ensures st.Ok? ==>
                && ring[..] == RingAtSend(old(ring[..]), old(card.disk), v, hi, old(View()))
                && (card.disk, View()) ==
                   Step(old(card.disk), v, hi, old(View()), Append(Spans(ring[..], offA, lenA, offB, lenB)))
      ensures !st.Ok? ==> AppendFailed(old(card.disk), card.disk, v, hi, old(View()), View(),
                                       Spans(ring[..], offA, lenA, offB, lenB))
      ensures !old(Full(View())) ==> ring[..] == old(ring[..])
      ensures Upper(ring) == old(Upper(ring))
    {
      hide Extend, FreeOnDisk, DuringExtension, AllDuring, Path;
      ghost var cells, d, s := ring[..], card.disk, View();
      if curLba >= endLba {
        ExtendTakes(d, v, hi, s);
        ghost var added;
        st, added := ExtendByOne(card, ring, v, hi);
        if !st.Ok? {
          return;
        }
        assert ring[..] == ring[..SECTOR_SIZE] + ring[SECTOR_SIZE..];
        assert Upper(ring) == cells[SECTOR_SIZE..];
      }
      st := card.WriteSectorZc(curLba, ring, offA, lenA, offB, lenB);
      assert Spans(ring[..], offA, lenA, offB, lenB) == ring[offA..offA + lenA] + ring[offB..offB + lenB];
      if !st.Ok? {
        return;
      }
      curLba := (curLba + 1) % U32;
      bytesWritten := (bytesWritten + lenA + lenB) % U32;
    }

    /** fat32_flush: the directory entry gets the number of bytes written so far. */
    method Flush(card: SdCard, ring: array<byte>, v: Volume, ghost hi: nat) returns (st: Status)
      requires ring.Length >= SECTOR_SIZE && StateOk(View()) && v.Fits(hi)
      modifies card, ring
      ensures card.failures == old(card.failures) + Failed(st)
      ensures st in {Ok, SdError}
      ensures st.Ok? ==> (card.disk, View()) == Step(old(card.disk), v, hi, View(), UpdateSize)
      ensures !st.Ok? ==> card.disk == old(card.disk) || card.disk == Step(old(card.disk), v, hi, View(), UpdateSize).0
      ensures Upper(ring) == old(Upper(ring))
    {
      hide WithSize, Upper;
      st := RewriteSize(card, ring, dirLba, dirOffset, bytesWritten);
    }

    /** The resume path: position from the recovery record, last cluster from the chain. */
    method Resume(card: SdCard, ring: array<byte>, v: Volume, entry: Slot, lba: nat, off: nat, recorded: nat,
                  prealloc: nat,
                  ghost q: seq<nat>)
      returns (st: Status)
      requires ring.Length >= SECTOR_SIZE && IsChain(FatView(card.disk, v, 0), q) && EntryCluster(entry) == q[0]
      modifies card`failures, this, ring
      ensures card.failures == old(card.failures) + Failed(st)
      ensures st in {Ok, SdError}
      ensures st.Ok? ==> View() == ResumeState(v, entry, lba, off, recorded, prealloc, q[|q| - 1])
    {
      hide FatView, ClusToLba, IsChain;
      firstClus := EntryCluster(entry);
      curLba := (ClusToLba(v, firstClus) + recorded / SECTOR_SIZE) % U32;
      endLba := (ClusToLba(v, firstClus) + prealloc / SECTOR_SIZE) % U32;
      dirLba, dirOffset := lba, off;
      bytesWritten, preallocSize := recorded, prealloc;
      st := FindLast(card, ring, v, q);
    }

    /** The resume walk ends at the one cluster of the chain that carries an end mark. */
    method FindLast(card: SdCard, ring: array<byte>, v: Volume, ghost p: seq<nat>) returns (st: Status)
      requires ring.Length >= SECTOR_SIZE && IsChain(FatView(card.disk, v, 0), p) && firstClus == p[0]
      modifies card`failures, this`lastClus, ring
      ensures card.failures == old(card.failures) + Failed(st)
      ensures st in {Ok, SdError}
      ensures st.Ok? ==> lastClus == p[|p| - 1]
      ensures !st.Ok? ==> lastClus == old(lastClus)
      ensures Upper(ring) == old(Upper(ring))
    {
      hide FatView, EntryAt, Upper;
      var c, next := firstClus, firstClus;
      ghost var i := 0;
      while next < EOC_MIN
        invariant card.failures == old(card.failures)
        invariant 0 <= i <= |p|
        invariant if i < |p| then next == p[i] else next >= EOC_MIN && c == p[|p| - 1]
        invariant lastClus == old(lastClus) && Upper(ring) == old(Upper(ring))
        decreases |p| - i
      {
        c := next;
        NextOnChain(card.disk, v, p, i);
        var entry;
        st, entry := FatReadEntry(card, ring, v, c);
        if !st.Ok? {
          return;
        }
        next := entry;
        i := i + 1;
      }
      lastClus := c;
      st := Ok;
    }
  }

  lemma ExtendTakes(d: Disk, v: Volume, hi: nat, s: LogState)
    requires v.Fits(hi) && |FreeOnDisk(d, v, hi)| > 0
    ensures Extend(d, v, hi, s).1.lastClus == FreeOnDisk(d, v, hi)[0] < ENTRY_LIMIT
  {
    hide WithCluster, FatView, FreeList;
    FreeListSound(FatView(d, v, 0), 2, hi);
  }

  lemma NothingDuring(d: Disk, v: Volume, last: nat, c: nat)
    requires c < ENTRY_LIMIT
    ensures AllDuring(d, v, last, c, [])
  {}

  /** FAT sectors are out of reach of a change in the data region. */
  lemma FatSectorKept(v: Volume, d: Disk, e: Disk, f: nat, c: nat, lo: nat, end: nat)
    requires v.Layout() && f < v.numFats && c < v.EntryCount() && lo >= v.dataLba && SameOutside(d, e, lo, end)
    ensures Get(e, CopySector(v, f, c)) == Get(d, CopySector(v, f, c))
  {
    CopySectorInFat(v, f, c);
  }

  lemma SafeSoFar(d: Disk, v: Volume, lo: nat, end: nat, complete: Disk, states: seq<Disk>)
    requires AllIntact(d, v, lo, end, states)
    ensures AllSafe(d, v, lo, end, complete, states)
  {}

  lemma SafeAtLast(d: Disk, v: Volume, lo: nat, end: nat, complete: Disk, states: seq<Disk>)
    requires AllIntact(d, v, lo, end, states)
    ensures AllSafe(d, v, lo, end, complete, states + [complete])
  {}

  lemma {:induction false} IncreasingSpan(p: seq<nat>)
    requires |p| > 0 && Increasing(p)
    ensures p[0] + |p| - 1 <= p[|p| - 1]
  {
    if |p| > 1 {
      IncreasingSpan(p[..|p| - 1]);
    }
  }

  /** Even on a fragmented FAT the region ends within 32 bits: the clusters taken span at
      least as many numbers as there are of them. */
  lemma RegionFits(d: Disk, v: Volume, hi: nat, size: nat, lo: nat, end: nat)
    requires v.Fits(hi) && SECTOR_SIZE <= size && FillRegion(d, v, hi, size, lo, end)
    requires ClustersFor(v, size / SECTOR_SIZE) <= |FreeOnDisk(d, v, hi)|
    ensures end == lo + size / SECTOR_SIZE < U32 && lo < end
  {
    hide Times, ClusToLba, FreeOnDisk;
    var n := ClustersFor(v, size / SECTOR_SIZE);
    TakenClusters(d, v, hi, n);
    var p := FreeOnDisk(d, v, hi)[..n];
    assert p[n - 1] < hi;
    IncreasingSpan(p);
    RegionInData(d, v, hi, size, lo, end);
    StretchFits(v, hi, p[0], n, size / SECTOR_SIZE);
  }

  /** Creation spelt out: link, fill, directory entry. */
  lemma CreateParts(d: Disk, v: Volume, hi: nat, name: seq<byte>, size: nat, dirLba: nat,
                    dirOffset: nat,
                    lo: nat, end: nat)
    requires |name| == 11 && SECTOR_SIZE <= size < U32 && dirOffset + 32 <= SECTOR_SIZE && v.Fits(hi)
    requires ClustersFor(v, size / SECTOR_SIZE) <= |FreeOnDisk(d, v, hi)| && FillRegion(d, v, hi, size, lo, end)
    ensures var p := FreeOnDisk(d, v, hi)[..ClustersFor(v, size / SECTOR_SIZE)];
            && |p| > 0 && (forall i :: 0 <= i < |p| ==> p[i] < ENTRY_LIMIT)
            && p[0] == FreeOnDisk(d, v, hi)[0] && lo < end
            && lo == ClusToLba(v, p[0]) && end == (lo + size / SECTOR_SIZE) % U32
            && LogSpec.Create(d, v, hi, name, size, dirLba, dirOffset) ==
               (var e := ZeroRange(LinkDisk(d, v, p), lo, end);
                (e[dirLba := Splice(Get(e, dirLba), dirOffset, DirEntry(name, p[0], size))],
                 LogState(p[0], lo, end, dirLba, dirOffset, 0, size, p[|p| - 1])))
  {
    hide FreeOnDisk, ClusToLba, ZeroRange, LinkDisk, DirEntry;
    TakenClusters(d, v, hi, ClustersFor(v, size / SECTOR_SIZE));
    RegionFits(d, v, hi, size, lo, end);
  }
}
