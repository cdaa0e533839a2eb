/** Master boot record and boot sector as they lie on the card, field by field
    (fat32_priv.h:28-69). What mounting reads out of them is what they were built from. */
module BootSectors {
  import opened Bytes
  import opened SectorDevice
  import opened Volumes

  /** An entry of the partition table. */
  datatype Partition = Partition(
    status: byte, chsFirst: seq<byte>, kind: byte, chsLast: seq<byte>, lbaStart: nat, lbaCount: nat)
  {
    predicate Valid() {
      |chsFirst| == 3 && |chsLast| == 3 && lbaStart < U32 && lbaCount < U32
    }

    function Image(): (b: seq<byte>)
      requires Valid()
      ensures |b| == 16
    {
      [status] + chsFirst + [kind] + chsLast + Bytes32(lbaStart) + Bytes32(lbaCount)
    }
  }

  function BootRecord(code: seq<byte>, table: seq<Partition>, signature: seq<byte>): Sector
    requires |code| == 446 && |table| == 4 && |signature| == 2 && forall i :: 0 <= i < 4 ==> table[i].Valid()
  {
    code + (table[0].Image() + (table[1].Image() + (table[2].Image() + (table[3].Image() + signature))))
  }

  /** Start of the first partition from entry i on whose type is one of the two FAT32 ones. */
  function FirstFat32(table: seq<Partition>, i: nat): nat
    requires i <= |table|
    decreases |table| - i
  {
    if i == |table| then 0
    else if table[i].kind == 0x0B || table[i].kind == 0x0C then table[i].lbaStart
    else FirstFat32(table, i + 1)
  }

  /** The BIOS parameter block and what follows it in the sector. */
  datatype BootSector = BootSector(
    jmp: seq<byte>, oem: seq<byte>,
    bytesPerSec: nat, secPerClus: byte, rsvdSec: nat, numFats: byte,
    rootEntCnt: nat, totSec16: nat, media: byte, fatSz16: nat,
    secPerTrk: nat, numHeads: nat, hiddSec: nat,
    totSec32: nat, fatSz32: nat, extFlags: nat, fsVer: nat, rootClus: nat,
    rest: seq<byte>)
  {
    predicate Valid() {
      && |jmp| == 3 && |oem| == 8 && |rest| == 464
      && bytesPerSec < U16 && rsvdSec < U16 && rootEntCnt < U16 && totSec16 < U16 && fatSz16 < U16
      && secPerTrk < U16 && numHeads < U16 && extFlags < U16 && fsVer < U16
      && hiddSec < U32 && totSec32 < U32 && fatSz32 < U32 && rootClus < U32
    }

    /** Offsets 0 to 23. */
    function Front(): (b: seq<byte>)
      requires Valid()
      ensures |b| == 24
    {
      jmp + oem + Bytes16(bytesPerSec) + [secPerClus] + Bytes16(rsvdSec) + [numFats]
      + Bytes16(rootEntCnt) + Bytes16(totSec16) + [media] + Bytes16(fatSz16)
    }

    /** Offsets 24 to 47. */
    function Back(): (b: seq<byte>)
      requires Valid()
      ensures |b| == 24
    {
      Bytes16(secPerTrk) + Bytes16(numHeads) + Bytes32(hiddSec) + Bytes32(totSec32) + Bytes32(fatSz32)
      + Bytes16(extFlags) + Bytes16(fsVer) + Bytes32(rootClus)
    }

    function Image(): Sector
      requires Valid()
    {
      Front() + Back() + rest
    }
  }

  lemma FrontFields(b: BootSector)
    requires b.Valid()
    ensures Le16(b.Front(), 11) == b.bytesPerSec && b.Front()[13] == b.secPerClus && Le16(b.Front(), 14) == b.rsvdSec
    ensures b.Front()[16] == b.numFats && Le16(b.Front(), 22) == b.fatSz16
  {
    hide Bytes16;
    var s := b.Front();
    assert s[11..13] == Bytes16(b.bytesPerSec);
    Le16OfBytes16(s, 11, b.bytesPerSec);
    assert s[14..16] == Bytes16(b.rsvdSec);
    Le16OfBytes16(s, 14, b.rsvdSec);
    assert s[22..24] == Bytes16(b.fatSz16);
    Le16OfBytes16(s, 22, b.fatSz16);
  }

  lemma BackFields(b: BootSector)
    requires b.Valid()
    ensures Le32(b.Back(), 8) == b.totSec32 && Le32(b.Back(), 12) == b.fatSz32 && Le32(b.Back(), 20) == b.rootClus
  {
    hide Bytes16, Bytes32;
    var s := b.Back();
    assert s[8..12] == Bytes32(b.totSec32);
    Le32OfBytes32(s, 8, b.totSec32);
    assert s[12..16] == Bytes32(b.fatSz32);
    Le32OfBytes32(s, 12, b.fatSz32);
    assert s[20..24] == Bytes32(b.rootClus);
    Le32OfBytes32(s, 20, b.rootClus);
  }

  /** A boot sector is accepted exactly if it has sectors of 512 bytes and a 32-bit FAT size
      only, and the volume is described by its fields. */
  lemma MountsFields(part: nat, b: BootSector)
    requires b.Valid()
    ensures VbrAccepted(b.Image()) <==> b.bytesPerSec == 512 && b.fatSz16 == 0 && b.fatSz32 != 0
    ensures var v := VolumeOf(part, b.Image());
            && v.partLba == part && v.rootClus == b.rootClus && v.totSec == b.totSec32
            && v.secPerClus == b.secPerClus && v.numFats == b.numFats && v.fatSz32 == b.fatSz32
            && v.fatLba == (part + b.rsvdSec) % U32
            && v.dataLba == (v.fatLba + b.numFats * b.fatSz32 % U32) % U32
  {
    hide BootSector.Front, BootSector.Back;
    var s := b.Image();
    FrontFields(b);
    BackFields(b);
    assert forall i :: 0 <= i < 24 ==> s[i] == b.Front()[i];
    assert forall i :: 0 <= i < 24 ==> s[24 + i] == b.Back()[i];
    assert s[32] == b.Back()[8] && s[33] == b.Back()[9] && s[34] == b.Back()[10] && s[35] == b.Back()[11];
    assert s[36] == b.Back()[12] && s[37] == b.Back()[13] && s[38] == b.Back()[14] && s[39] == b.Back()[15];
    assert s[44] == b.Back()[20] && s[45] == b.Back()[21] && s[46] == b.Back()[22] && s[47] == b.Back()[23];
  }

  lemma TableEntry(code: seq<byte>, table: seq<Partition>, signature: seq<byte>, i: nat)
    requires |code| == 446 && |table| == 4 && |signature| == 2 && forall j :: 0 <= j < 4 ==> table[j].Valid()
    requires i < 4
    ensures BootRecord(code, table, signature)[446 + 16 * i..462 + 16 * i] == table[i].Image()
  {
    hide Partition.Image;
    var e := BootRecord(code, table, signature);
    if i == 0 {
      assert e[446..462] == table[0].Image();
    } else if i == 1 {
      assert e[462..478] == table[1].Image();
    } else if i == 2 {
      assert e[478..494] == table[2].Image();
    } else {
      assert e[494..510] == table[3].Image();
    }
  }

  lemma EntryFields(p: Partition)
    requires p.Valid()
    ensures p.Image()[4] == p.kind && Le32(p.Image(), 8) == p.lbaStart
  {
    hide Bytes32;
    assert p.Image()[8..12] == Bytes32(p.lbaStart);
    Le32OfBytes32(p.Image(), 8, p.lbaStart);
  }

  /** The partition taken is the first FAT32 one of the table. */
  lemma {:induction false} TakesFirstFat32(code: seq<byte>, table: seq<Partition>, signature: seq<byte>, i: nat)
    requires |code| == 446 && |table| == 4 && |signature| == 2 && forall j :: 0 <= j < 4 ==> table[j].Valid()
    requires i <= 4
    ensures PartitionLba(BootRecord(code, table, signature), i) == FirstFat32(table, i)
    decreases 4 - i
  {
    hide BootRecord, Partition.Image;
    if i < 4 {
      var s, at := BootRecord(code, table, signature), 446 + 16 * i;
      TableEntry(code, table, signature, i);
      EntryFields(table[i]);
      var e := s[at..at + 16];
      assert e[4] == s[at + 4] && e[8] == s[at + 8] && e[9] == s[at + 9] && e[10] == s[at + 10] && e[11] == s[at + 11];
      TakesFirstFat32(code, table, signature, i + 1);
    }
  }
}
