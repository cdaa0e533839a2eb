/** 28-bit FAT entries, their byte-level store and the FAT as a sequence (fat32_state.c). */
module FatTable {
  import opened Bytes
  import opened SectorDevice
  import opened Volumes

  /** Entries are 28 bits wide; the upper nibble of the stored word is reserved. */
  const ENTRY_LIMIT := 0x1000_0000
  /** Entries from EOC_MIN on end a chain; EOC is the mark this program writes. */
  const EOC_MIN := 0x0FFF_FFF8
  const EOC := 0x0FFF_FFFF

  function EntryIn(s: Sector, off: nat): (e: nat)
    requires off + 4 <= SECTOR_SIZE
    ensures e < ENTRY_LIMIT
  {
    Le32(s, off) % ENTRY_LIMIT
  }

  /** The sector with val stored at off below the reserved nibble. */
  function Patched(s: Sector, off: nat, val: nat): Sector
    requires off + 4 <= SECTOR_SIZE && val < ENTRY_LIMIT
  {
    Splice(s, off, [val % 0x100, val / 0x100 % 0x100, val / 0x1_0000 % 0x100,
                    s[off + 3] / 16 * 16 + val / 0x100_0000])
  }

  function EntryAt(d: Disk, v: Volume, f: nat, clus: nat): (e: nat)
    ensures e < ENTRY_LIMIT
  {
    EntryIn(Get(d, CopySector(v, f, clus)), FatOffset(clus))
  }

  function ReservedNibble(d: Disk, v: Volume, f: nat, clus: nat): nat {
    Get(d, CopySector(v, f, clus))[FatOffset(clus) + 3] / 16
  }

  /** FAT copy f as the sequence of its 28-bit entries. */
  function FatView(d: Disk, v: Volume, f: nat): (fat: seq<nat>)
    ensures |fat| == v.EntryCount()
    ensures forall c :: 0 <= c < |fat| ==> fat[c] == EntryAt(d, v, f, c)
  {
    seq(v.EntryCount(), c requires 0 <= c => EntryAt(d, v, f, c))
  }

  /** Byte k of FAT copy f, its sectors read one after the other. */
  function FatByte(d: Disk, v: Volume, f: nat, k: nat): byte {
    Get(d, v.fatLba + f * v.fatSz32 + k / SECTOR_SIZE)[k % SECTOR_SIZE]
  }

  /** The entries are the 32-bit words of the FAT in order, but for the upper nibble. */
  lemma EntryIsWord(d: Disk, v: Volume, f: nat, c: nat)
    ensures EntryAt(d, v, f, c) ==
            (FatByte(d, v, f, 4 * c) + 0x100 * FatByte(d, v, f, 4 * c + 1) + 0x1_0000 * FatByte(d, v, f, 4 * c + 2)
             + 0x100_0000 * FatByte(d, v, f, 4 * c + 3)) % 0x1000_0000
  {
    TimesIsProduct(f, v.fatSz32);
    WordPlace(c, 0);
    WordPlace(c, 1);
    WordPlace(c, 2);
    WordPlace(c, 3);
  }

  lemma WordPlace(c: nat, i: nat)
    requires i < 4
    ensures (4 * c + i) / SECTOR_SIZE == c / ENTRIES_PER_SECTOR && (4 * c + i) % SECTOR_SIZE == FatOffset(c) + i
  {}

  ghost predicate CopiesAgree(d: Disk, v: Volume) {
    forall f :: 0 <= f < v.numFats ==> FatView(d, v, f) == FatView(d, v, 0)
  }

  function PatchCopy(d: Disk, v: Volume, f: nat, clus: nat, val: nat): Disk
    requires val < ENTRY_LIMIT
  {
    var sec := CopySector(v, f, clus);
    d[sec := Patched(Get(d, sec), FatOffset(clus), val)]
  }

  /** The disk once the first n copies hold the new entry. */
  function WriteCopies(d: Disk, v: Volume, clus: nat, val: nat, n: nat): Disk
    requires val < ENTRY_LIMIT
  {
    if n == 0 then d else PatchCopy(WriteCopies(d, v, clus, val, n - 1), v, n - 1, clus, val)
  }

  function WriteEntry(d: Disk, v: Volume, clus: nat, val: nat): Disk
    requires val < ENTRY_LIMIT
  {
    WriteCopies(d, v, clus, val, v.numFats)
  }

  // ---- the store refines a map ----------------------------------------------

  lemma Halves(val: nat)
    ensures val == val / 0x100 * 0x100 + val % 0x100 && val / 0x100 / 0x100 == val / 0x1_0000
    ensures val / 0x1_0000 / 0x100 == val / 0x100_0000
  {}

  /** The bytes of a value add up to it. */
  lemma BytesAddUp(val: nat)
    ensures val % 0x100 + 0x100 * (val / 0x100 % 0x100) + 0x1_0000 * (val / 0x1_0000 % 0x100)
            + 0x100_0000 * (val / 0x100_0000) == val
  {
    Halves(val);
    Halves(val / 0x100);
    Halves(val / 0x1_0000);
  }

  lemma TopByte(b: byte, t: nat)
    requires t < 16
    ensures (b / 16 * 16 + t) / 16 == b / 16
  {}

  lemma BelowNibble(val: nat, k: nat)
    requires val < ENTRY_LIMIT
    ensures (val + k * ENTRY_LIMIT) % ENTRY_LIMIT == val
  {}

  lemma PatchedEntry(s: Sector, off: nat, val: nat)
    requires off + 4 <= SECTOR_SIZE && val < ENTRY_LIMIT
    ensures EntryIn(Patched(s, off, val), off) == val
    ensures Patched(s, off, val)[off + 3] / 16 == s[off + 3] / 16
  {
    var k := s[off + 3] / 16;
    BytesAddUp(val);
    TopByte(s[off + 3], val / 0x100_0000);
    assert Le32(Patched(s, off, val), off) == val + k * ENTRY_LIMIT;
    BelowNibble(val, k);
  }

  /** A store in a sector leaves the other entries of the sector alone. */
  lemma PatchedOther(s: Sector, off: nat, val: nat, other: nat)
    requires off + 4 <= SECTOR_SIZE && other + 4 <= SECTOR_SIZE && val < ENTRY_LIMIT
    requires other + 4 <= off || off + 4 <= other
    ensures EntryIn(Patched(s, off, val), other) == EntryIn(s, other)
    ensures Patched(s, off, val)[other + 3] / 16 == s[other + 3] / 16
  {}

  /** After n copies: the sector of each of them is patched, every other FAT sector is as before. */
  lemma {:induction false} WriteCopiesSector(d: Disk, v: Volume, clus: nat, val: nat, n: nat, g: nat, c: nat)
    requires v.Layout() && n <= v.numFats && val < ENTRY_LIMIT && clus < v.EntryCount()
    requires g < v.numFats && c < v.EntryCount()
    ensures var sec := CopySector(v, g, c);
            Get(WriteCopies(d, v, clus, val, n), sec) ==
            if g < n && c / 128 == clus / 128 then Patched(Get(d, sec), FatOffset(clus), val) else Get(d, sec)
  {
    hide Patched, Get, CopySector, FatOffset, Volume.Layout;
    if n > 0 {
      WriteCopiesSector(d, v, clus, val, n - 1, g, c);
      CopySectorsApart(v, n - 1, clus, g, c);
      var m, own := WriteCopies(d, v, clus, val, n - 1), CopySector(v, n - 1, clus);
      GetUpdate(m, own, Patched(Get(m, own), FatOffset(clus), val), CopySector(v, g, c));
    }
  }

  lemma WriteCopiesEntry(d: Disk, v: Volume, clus: nat, val: nat, n: nat, g: nat, c: nat)
    requires v.Layout() && n <= v.numFats && val < ENTRY_LIMIT && clus < v.EntryCount()
    requires g < v.numFats && c < v.EntryCount()
    ensures EntryAt(WriteCopies(d, v, clus, val, n), v, g, c) ==
            if g < n && c == clus then val else EntryAt(d, v, g, c)
    ensures ReservedNibble(WriteCopies(d, v, clus, val, n), v, g, c) == ReservedNibble(d, v, g, c)
  {
    hide WriteCopies, Patched, EntryIn, CopySector, Volume.Layout;
    WriteCopiesSector(d, v, clus, val, n, g, c);
    var s := Get(d, CopySector(v, g, c));
    if g < n && c / 128 == clus / 128 {
      if c == clus {
        PatchedEntry(s, FatOffset(clus), val);
      } else {
        PatchedOther(s, FatOffset(clus), val, FatOffset(c));
      }
    }
  }

  lemma WriteCopiesView(d: Disk, v: Volume, clus: nat, val: nat, n: nat, g: nat)
    requires v.Layout() && n <= v.numFats && val < ENTRY_LIMIT && clus < v.EntryCount() && g < v.numFats
    ensures FatView(WriteCopies(d, v, clus, val, n), v, g) ==
            if g < n then FatView(d, v, g)[clus := val] else FatView(d, v, g)
  {
    hide WriteCopies, EntryAt, Volume.Layout;
    var e := WriteCopies(d, v, clus, val, n);
    forall c: nat | c < v.EntryCount()
      ensures EntryAt(e, v, g, c) == if g < n && c == clus then val else EntryAt(d, v, g, c)
    {
      WriteCopiesEntry(d, v, clus, val, n, g, c);
    }
  }

  /** No sector outside the FAT changes. */
  lemma {:induction false} WriteCopiesFrame(d: Disk, v: Volume, clus: nat, val: nat, n: nat)
    requires v.Layout() && n <= v.numFats && val < ENTRY_LIMIT && clus < v.EntryCount()
    ensures forall l: nat :: !InFat(v, l) ==> Get(WriteCopies(d, v, clus, val, n), l) == Get(d, l)
  {
    hide Patched, CopySector, FatOffset, InFat, Volume.Layout;
    if n > 0 {
      WriteCopiesFrame(d, v, clus, val, n - 1);
      CopySectorInFat(v, n - 1, clus);
    }
  }

  /** A complete store is a map update on every copy: it keeps the reserved nibbles, the
      agreement of the copies and every sector outside the FAT. */
  lemma StoreRefinesMap(d: Disk, v: Volume, clus: nat, val: nat)
    requires v.Layout() && val < ENTRY_LIMIT && clus < v.EntryCount()
    ensures forall g: nat :: g < v.numFats ==>
            FatView(WriteEntry(d, v, clus, val), v, g) == FatView(d, v, g)[clus := val]
    ensures forall g: nat, c: nat :: g < v.numFats && c < v.EntryCount() ==>
              ReservedNibble(WriteEntry(d, v, clus, val), v, g, c) == ReservedNibble(d, v, g, c)
    ensures CopiesAgree(d, v) ==> CopiesAgree(WriteEntry(d, v, clus, val), v)
    ensures forall l: nat :: !InFat(v, l) ==> Get(WriteEntry(d, v, clus, val), l) == Get(d, l)
  {
    hide WriteCopies, FatView, ReservedNibble, InFat, Volume.Layout;
    WriteCopiesFrame(d, v, clus, val, v.numFats);
    forall g: nat | g < v.numFats
      ensures FatView(WriteEntry(d, v, clus, val), v, g) == FatView(d, v, g)[clus := val]
    {
      WriteCopiesView(d, v, clus, val, v.numFats, g);
    }
    forall g: nat, c: nat | g < v.numFats && c < v.EntryCount()
      ensures ReservedNibble(WriteEntry(d, v, clus, val), v, g, c) == ReservedNibble(d, v, g, c)
    {
      WriteCopiesEntry(d, v, clus, val, v.numFats, g, c);
    }
  }

  /** The FAT depends on the FAT sectors only. */
  lemma SameFat(d: Disk, e: Disk, v: Volume)
    requires v.Layout()
    requires forall l: nat :: InFat(v, l) ==> Get(d, l) == Get(e, l)
    ensures forall f: nat :: f < v.numFats ==> FatView(d, v, f) == FatView(e, v, f)
    ensures CopiesAgree(d, v) <==> CopiesAgree(e, v)
  {
    hide EntryIn, CopySector, FatOffset, InFat, Volume.Layout;
    forall f: nat, c: nat | f < v.numFats && c < v.EntryCount()
      ensures EntryAt(d, v, f, c) == EntryAt(e, v, f, c)
    {
      CopySectorInFat(v, f, c);
    }
    forall f: nat | f < v.numFats ensures FatView(d, v, f) == FatView(e, v, f) {}
  }

  // ---- entry I/O -------------------------------------------------------------

  method FatReadEntry(card: SdCard, ring: array<byte>, v: Volume, clus: nat) returns (st: Status, val: nat)
    requires ring.Length >= SECTOR_SIZE
    modifies card`failures, ring
    ensures card.failures == old(card.failures) + Failed(st)
    ensures st in {Ok, SdError}
    ensures st.Ok? ==> FatSector(v, clus) in card.disk && val == EntryAt(card.disk, v, 0, clus)
    ensures Upper(ring) == old(Upper(ring))
  {
    var off := FatOffset(clus);
    val := 0;
    st := card.ReadSector(FatSector(v, clus), ring);
    if !st.Ok? {
      return;
    }
    val := Le32(ring[..SECTOR_SIZE], off) % ENTRY_LIMIT;
  }

  /** Stores the four bytes of an entry. */
  method PatchBuffer(ring: array<byte>, off: nat, val: nat)
    requires ring.Length >= SECTOR_SIZE && off + 4 <= SECTOR_SIZE && val < ENTRY_LIMIT
    modifies ring
    ensures ring[..SECTOR_SIZE] == Patched(old(ring[..SECTOR_SIZE]), off, val)
    ensures Upper(ring) == old(Upper(ring))
  {
    hide Splice;
    ring[off] := val % 0x100;
    ring[off + 1] := val / 0x100 % 0x100;
    ring[off + 2] := val / 0x1_0000 % 0x100;
    ring[off + 3] := ring[off + 3] / 16 * 16 + val / 0x100_0000;
  }

  /** Read, patch and write back the sector of one FAT copy. */
  method StoreInCopy(card: SdCard, ring: array<byte>, v: Volume, f: nat, clus: nat, val: nat) returns (st: Status)
    requires ring.Length >= SECTOR_SIZE && val < ENTRY_LIMIT
    modifies card, ring
    ensures card.failures == old(card.failures) + Failed(st)
    ensures st in {Ok, SdError}
    ensures card.erases == old(card.erases)
    ensures (card.disk == old(card.disk) && card.hist == old(card.hist)) ||
            (card.disk == PatchCopy(old(card.disk), v, f, clus, val) && card.hist == old(card.hist) + [card.disk])
    ensures st.Ok? ==> card.hist != old(card.hist) && ring[..SECTOR_SIZE] == Get(card.disk, CopySector(v, f, clus))
    ensures Upper(ring) == old(Upper(ring))
  {
    hide Patched, FatOffset, FatSector, Upper;
    var fsec := FatSector(v, clus) + f * v.fatSz32;
    TimesIsProduct(f, v.fatSz32);
    var off := FatOffset(clus);
    st := card.ReadSector(fsec, ring);
    if !st.Ok? {
      return;
    }
    PatchBuffer(ring, off, val);
    st := card.WriteSector(fsec, ring);
  }

  /** The disks a store passes through, one for each copy written. */
  ghost function CopyTrace(d: Disk, v: Volume, clus: nat, val: nat, n: nat): (t: seq<Disk>)
    requires val < ENTRY_LIMIT
    ensures |t| == n
  {
    if n == 0 then [] else CopyTrace(d, v, clus, val, n - 1) + [WriteCopies(d, v, clus, val, n)]
  }

  lemma {:induction false} CopyTraceAt(d: Disk, v: Volume, clus: nat, val: nat, n: nat, k: nat)
    requires val < ENTRY_LIMIT && k < n
    ensures CopyTrace(d, v, clus, val, n)[k] == WriteCopies(d, v, clus, val, k + 1)
  {
    hide WriteCopies;
    if k < n - 1 {
      CopyTraceAt(d, v, clus, val, n - 1, k);
    }
  }

  lemma NoCopies(d: Disk, v: Volume, clus: nat, val: nat)
    requires val < ENTRY_LIMIT
    ensures WriteCopies(d, v, clus, val, 0) == d && CopyTrace(d, v, clus, val, 0) == []
  {}

  lemma OneMoreCopy(d: Disk, v: Volume, clus: nat, val: nat, n: nat)
    requires val < ENTRY_LIMIT
    ensures WriteCopies(d, v, clus, val, n + 1) == PatchCopy(WriteCopies(d, v, clus, val, n), v, n, clus, val)
    ensures CopyTrace(d, v, clus, val, n + 1) == CopyTrace(d, v, clus, val, n) + [WriteCopies(d, v, clus, val, n + 1)]
  {}

  lemma {:induction false} CopyTracePath(d: Disk, v: Volume, clus: nat, val: nat, n: nat)
    requires val < ENTRY_LIMIT
    ensures Path(d, CopyTrace(d, v, clus, val, n), WriteCopies(d, v, clus, val, n), [])
  {
    hide Path, OneChange, CopySector, FatOffset, Patched;
    if n == 0 {
      PathNone(d, []);
    } else {
      CopyTracePath(d, v, clus, val, n - 1);
      var m := WriteCopies(d, v, clus, val, n - 1);
      var sec := CopySector(v, n - 1, clus);
      PathWrite(d, CopyTrace(d, v, clus, val, n - 1), m, WriteCopies(d, v, clus, val, n), [], sec,
                Patched(Get(m, sec), FatOffset(clus), val));
    }
  }

  /** Whether or not the store succeeds, the disks it passes through are those with the
      first 1, 2, .. n copies written; only a complete store reports success. */
  method FatWriteEntry(card: SdCard, ring: array<byte>, v: Volume, clus: nat, val: nat)
    returns (st: Status, ghost n: nat)
    requires ring.Length >= SECTOR_SIZE && val < ENTRY_LIMIT
    modifies card, ring
    ensures card.failures == old(card.failures) + Failed(st)
    ensures st in {Ok, SdError} && n <= v.numFats && (st.Ok? ==> n == v.numFats)
    ensures card.disk == WriteCopies(old(card.disk), v, clus, val, n)
    ensures card.hist == old(card.hist) + CopyTrace(old(card.disk), v, clus, val, n)
    ensures card.erases == old(card.erases)
    ensures st.Ok? && n > 0 ==> ring[..SECTOR_SIZE] == Get(card.disk, CopySector(v, n - 1, clus))
    ensures Upper(ring) == old(Upper(ring))
  {
    hide CopyTrace, WriteCopies, PatchCopy, CopySector, Upper;
    n := 0;
    NoCopies(card.disk, v, clus, val);
    for f := 0 to v.numFats
      invariant card.failures == old(card.failures)
      invariant n == f
      invariant card.disk == WriteCopies(old(card.disk), v, clus, val, f)
      invariant card.hist == old(card.hist) + CopyTrace(old(card.disk), v, clus, val, f)
      invariant card.erases == old(card.erases)
      invariant f > 0 ==> ring[..SECTOR_SIZE] == Get(card.disk, CopySector(v, f - 1, clus))
      invariant Upper(ring) == old(Upper(ring))
    {
      ghost var before := card.hist;
      OneMoreCopy(old(card.disk), v, clus, val, f);
      st := StoreInCopy(card, ring, v, f, clus, val);
      if card.hist != before {
        n := f + 1;
      }
      if !st.Ok? {
        return;
      }
    }
    st := Ok;
  }
}
