/** Region layout of a mounted FAT32 volume and its address arithmetic
    (fat32_priv.h, fat32_mount.c). */
module Volumes {
  import opened Bytes
  import opened SectorDevice

  const ENTRIES_PER_SECTOR := 128

  /** k * w as repeated addition, which keeps the address proofs linear. */
  function Times(k: nat, w: nat): nat {
    if k == 0 then 0 else Times(k - 1, w) + w
  }

  lemma {:induction false} TimesIsProduct(k: nat, w: nat)
    ensures Times(k, w) == k * w
  {
    if k > 0 {
      TimesIsProduct(k - 1, w);
      assert k * w == (k - 1) * w + w;
    }
  }

  lemma {:induction false} TimesMono(a: nat, b: nat, w: nat)
    requires a <= b
    ensures Times(a, w) <= Times(b, w)
    ensures a < b ==> Times(a, w) + w <= Times(b, w)
    decreases b
  {
    if a < b {
      TimesMono(a, b - 1, w);
    }
  }

  lemma {:induction false} TimesAdd(a: nat, b: nat, w: nat)
    ensures Times(a + b, w) == Times(a, w) + Times(b, w)
  {
    if b > 0 {
      TimesAdd(a, b - 1, w);
    }
  }

  datatype Volume = Volume(
    fatLba: nat, fatSz32: nat, dataLba: nat, rootClus: nat,
    partLba: nat, totSec: nat, secPerClus: nat, numFats: nat)
  {
    /** What the address arithmetic takes for granted: the FAT copies fill the space
        between fatLba and dataLba, and nothing wraps around 2^32. */
    ghost predicate Layout() {
      && numFats >= 1 && fatSz32 >= 1 && secPerClus >= 1
      && dataLba == fatLba + Times(numFats, fatSz32)
    }

    /** Clusters 2 .. limit-1 have a FAT entry and 32-bit data addresses, and their
        numbers stay clear of the reserved entry values. The first address behind them has
        32 bits as well, since the program keeps it as the end of a region. */
    ghost predicate Fits(limit: nat) {
      && Layout()
      && 2 <= limit <= ENTRIES_PER_SECTOR * fatSz32
      && limit <= 0x0FFF_FFF7
      && dataLba + Times(limit - 2, secPerClus) < U32
    }

    /** The entries of one FAT copy. */
    function EntryCount(): nat { ENTRIES_PER_SECTOR * fatSz32 }
  }

  /** LBA of the first sector of a cluster, in exact arithmetic. */
  function ClusterStart(v: Volume, clus: nat): nat
    requires clus >= 2
  {
    v.dataLba + Times(clus - 2, v.secPerClus)
  }

  /** The same as the 32-bit machine computes it. */
  function ClusToLba(v: Volume, clus: nat): nat {
    (v.dataLba + (clus - 2) % U32 * v.secPerClus % U32) % U32
  }

  /** l is a sector of cluster c. */
  predicate SectorOf(v: Volume, c: nat, l: nat)
    requires c >= 2
  {
    ClusterStart(v, c) <= l < ClusterStart(v, c) + v.secPerClus
  }

  function FatSector(v: Volume, clus: nat): nat {
    v.fatLba + clus / ENTRIES_PER_SECTOR
  }

  function FatOffset(clus: nat): (off: nat)
    ensures off % 4 == 0 && off + 4 <= SECTOR_SIZE
  {
    clus % ENTRIES_PER_SECTOR * 4
  }

  /** Sector of copy f that holds the entry of a cluster. */
  function CopySector(v: Volume, f: nat, clus: nat): nat {
    FatSector(v, clus) + Times(f, v.fatSz32)
  }

  predicate InFat(v: Volume, lba: nat) { v.fatLba <= lba < v.dataLba }

  // ---- address separation -------------------------------------------------

  /** Times(p, k) + x determines (p, x) when x < k. */
  lemma PositionUnique(p: nat, x: nat, q: nat, y: nat, k: nat)
    requires x < k && y < k
    ensures Times(p, k) + x == Times(q, k) + y <==> p == q && x == y
  {
    if p < q { TimesMono(p, q, k); }
    if q < p { TimesMono(q, p, k); }
  }

  /** FAT sectors of distinct copies never overlap. */
  lemma CopySectorsApart(v: Volume, f: nat, c: nat, g: nat, e: nat)
    requires v.Layout() && c < v.EntryCount() && e < v.EntryCount()
    ensures CopySector(v, f, c) == CopySector(v, g, e) <==> f == g && c / 128 == e / 128
  {
    PositionUnique(f, c / 128, g, e / 128, v.fatSz32);
  }

  /** All FAT sectors lie between fatLba and dataLba. */
  lemma CopySectorInFat(v: Volume, f: nat, c: nat)
    requires v.Layout() && f < v.numFats && c < v.EntryCount()
    ensures InFat(v, CopySector(v, f, c))
  {
    TimesMono(f, v.numFats, v.fatSz32);
  }

  /** Entries are stored apart: no two (copy, cluster) pairs share a sector and offset. */
  lemma EntriesApart(v: Volume, f: nat, c: nat, g: nat, e: nat)
    requires v.Layout() && c < v.EntryCount() && e < v.EntryCount()
    ensures CopySector(v, f, c) == CopySector(v, g, e) && FatOffset(c) == FatOffset(e) <==> f == g && c == e
    ensures FatOffset(c) == FatOffset(e) || FatOffset(c) + 4 <= FatOffset(e) || FatOffset(e) + 4 <= FatOffset(c)
  {
    CopySectorsApart(v, f, c, g, e);
  }

  /** Distinct (cluster, sector) pairs have distinct addresses in the data region. */
  lemma DataSectorsApart(v: Volume, c: nat, s: nat, e: nat, t: nat)
    requires c >= 2 && e >= 2 && s < v.secPerClus && t < v.secPerClus
    ensures ClusterStart(v, c) + s >= v.dataLba
    ensures ClusterStart(v, c) + s == ClusterStart(v, e) + t <==> c == e && s == t
  {
    PositionUnique(c - 2, s, e - 2, t, v.secPerClus);
  }

  /** An address that fits into 32 bits is computed exactly. */
  lemma ExactLba(v: Volume, c: nat)
    requires 2 <= c < U32 && ClusterStart(v, c) < U32
    ensures ClusToLba(v, c) == ClusterStart(v, c)
  {
    TimesIsProduct(c - 2, v.secPerClus);
    hide Times;
    SmallSum(v.dataLba, c - 2, v.secPerClus);
  }

  /** Cluster numbers below the limit need no more than 32 bits of address. */
  lemma NoWrap(v: Volume, limit: nat, c: nat)
    requires v.Fits(limit) && 2 <= c < limit
    ensures ClusToLba(v, c) == ClusterStart(v, c)
    ensures ClusterStart(v, c) + v.secPerClus <= ClusterStart(v, limit) < U32
  {
    hide ClusToLba;
    TimesMono(c - 2, limit - 2, v.secPerClus);
    ExactLba(v, c);
  }

  lemma SmallSum(a: nat, k: nat, w: nat)
    requires k < U32 && a + k * w < U32
    ensures (a + k % U32 * w % U32) % U32 == a + k * w
  {
    assert k % U32 == k;
  }

  /** Clusters in increasing order occupy the data region in increasing order. */
  lemma ClusterOrder(v: Volume, c: nat, e: nat)
    requires 2 <= c < e
    ensures ClusterStart(v, c) + v.secPerClus <= ClusterStart(v, e)
  {
    TimesMono(c - 2, e - 2, v.secPerClus);
  }

  /** Clusters that follow one another occupy a single stretch of the data region. */
  lemma StretchStart(v: Volume, c: nat, k: nat)
    requires c >= 2
    ensures ClusterStart(v, c + k) == ClusterStart(v, c) + Times(k, v.secPerClus)
  {
    TimesAdd(c - 2, k, v.secPerClus);
  }

  /** Addresses of a stretch of k clusters below the limit do not wrap, its end included. */
  lemma StretchFits(v: Volume, limit: nat, c: nat, k: nat, n: nat)
    requires v.Fits(limit) && 2 <= c && c + k <= limit && n <= Times(k, v.secPerClus)
    ensures (ClusterStart(v, c) + n) % U32 == ClusterStart(v, c) + n <= ClusterStart(v, limit) < U32
  {
    hide Times;
    StretchStart(v, c, k);
    TimesMono(c + k - 2, limit - 2, v.secPerClus);
  }

  // ---- mounting -------------------------------------------------------------

  const PART_TABLE := 446

  predicate IsFat32Type(t: byte) { t == 0x0B || t == 0x0C }

  /** Start of the first FAT32 partition listed in slots i .. 3, or 0. */
  function PartitionLba(mbr: Sector, i: nat): nat
    requires i <= 4
    decreases 4 - i
  {
    if i == 4 then 0
    else if IsFat32Type(mbr[PART_TABLE + i * 16 + 4]) then Le32(mbr, PART_TABLE + i * 16 + 8)
    else PartitionLba(mbr, i + 1)
  }

  predicate VbrAccepted(vbr: Sector) {
    Le16(vbr, 11) == SECTOR_SIZE && Le16(vbr, 22) == 0 && Le32(vbr, 36) != 0
  }

  function VolumeOf(part: nat, vbr: Sector): Volume {
    var fatLba := (part + Le16(vbr, 14)) % U32;
    Volume(
      fatLba := fatLba,
      fatSz32 := Le32(vbr, 36),
      dataLba := (fatLba + vbr[16] * Le32(vbr, 36) % U32) % U32,
      rootClus := Le32(vbr, 44),
      partLba := part,
      totSec := Le32(vbr, 32),
      secPerClus := vbr[13],
      numFats := vbr[16])
  }

  method Mount(card: SdCard, ring: array<byte>) returns (st: Status, v: Volume)
    requires ring.Length >= SECTOR_SIZE
    modifies card`failures, ring
    ensures card.failures == old(card.failures) + Failed(st)
    ensures st.Ok? ==>
              && 0 in card.disk
              && var part := PartitionLba(card.disk[0], 0);
                 part != 0 && part in card.disk && VbrAccepted(card.disk[part]) && v == VolumeOf(part, card.disk[part])
    ensures st.BadVolume? ==>
              && 0 in card.disk
              && var part := PartitionLba(card.disk[0], 0);
                 part == 0 || (part in card.disk && !VbrAccepted(card.disk[part]))
    ensures st in {Ok, SdError, BadVolume}
  {
    v := Volume(0, 0, 0, 0, 0, 0, 0, 0);
    st := card.ReadSector(0, ring);
    if !st.Ok? {
      return;
    }
    ghost var mbr := card.disk[0];
    var part := 0;
    var i := 0;
    while i < 4
      invariant card.failures == old(card.failures)
      invariant 0 <= i <= 4 && part == 0 && ring[..SECTOR_SIZE] == mbr
      invariant PartitionLba(mbr, 0) == PartitionLba(mbr, i)
    {
      var p := PART_TABLE + i * 16;
      assert ring[p + 4] == mbr[p + 4];
      if IsFat32Type(ring[p + 4]) {
        part := Le32(ring[..SECTOR_SIZE], p + 8);
        break;
      }
      i := i + 1;
    }
    assert part == PartitionLba(mbr, 0);
    if part == 0 {
      return BadVolume, v;
    }
    st := card.ReadSector(part, ring);
    if !st.Ok? {
      return;
    }
    var vbr := ring[..SECTOR_SIZE];
    if Le16(vbr, 11) != SECTOR_SIZE {
      return BadVolume, v;
    }
    if Le16(vbr, 22) != 0 || Le32(vbr, 36) == 0 {
      return BadVolume, v;
    }
    v := VolumeOf(part, vbr);
  }

  lemma SumWraps(a: nat, n: nat)
    requires a < U32
    ensures (a + n % U32) % U32 == a + n <==> a + n < U32
  {}

  lemma Unwrapped(a: nat)
    requires a < U32
    ensures a % U32 == a
  {}

  /** A mounted volume has the layout the arithmetic relies on exactly when its boot
      sector names at least one FAT and one sector per cluster and the start of the data
      region does not pass 2^32. */
  lemma MountedLayout(part: nat, vbr: Sector)
    requires VbrAccepted(vbr) && part + Le16(vbr, 14) < U32
    ensures VolumeOf(part, vbr).Layout() <==>
              vbr[16] >= 1 && vbr[13] >= 1 && part + Le16(vbr, 14) + vbr[16] * Le32(vbr, 36) < U32
    ensures VolumeOf(part, vbr).Layout() ==> VolumeOf(part, vbr).fatLba == part + Le16(vbr, 14)
  {
    hide Le16, Le32, Times;
    var fatLba, sz := part + Le16(vbr, 14), Le32(vbr, 36);
    var all := vbr[16] * sz;
    SumWraps(fatLba, all);
    TimesIsProduct(vbr[16], sz);
    Unwrapped(fatLba);
    assert VolumeOf(part, vbr).dataLba == (fatLba + all % U32) % U32;
  }
}
