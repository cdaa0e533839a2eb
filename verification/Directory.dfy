/** Log file names, directory slots and the scan of the root directory
    (fat32_log.c:18-134). */
module Directory {
  import opened Bytes
  import opened SectorDevice
  import opened Volumes
  import opened FatTable
  import opened Chains
  import opened LogSpec

  // ---- file names -----------------------------------------------------------------

  function Digit(num: nat, place: nat): byte
    requires place > 0
  {
    '0' as int + num / place % 10
  }

  /** LOGnnnnnTXT as directory bytes. */
  function LogName(num: nat): (name: seq<byte>)
    ensures |name| == 11
  {
    ['L' as int, 'O' as int, 'G' as int,
     Digit(num, 10000), Digit(num, 1000), Digit(num, 100), Digit(num, 10), Digit(num, 1),
     'T' as int, 'X' as int, 'T' as int]
  }

  function Text(s: string): (b: seq<byte>)
    requires forall i :: 0 <= i < |s| ==> s[i] as int < 256
    ensures |b| == |s|
  {
    seq(|s|, i requires 0 <= i < |s| => s[i] as int)
  }

  lemma NameText()
    ensures LogName(12345) == Text("LOG12345TXT")
  {}

  /** The power of ten whose digit stands at index i of a name. */
  function Place(i: nat): nat
    requires 2 <= i <= 7
    ensures Place(i) > 0
  {
    match i
    case 2 => 10_0000
    case 3 => 1_0000
    case 4 => 1000
    case 5 => 100
    case 6 => 10
    case _ => 1
  }

  lemma NextPlace(num: nat, i: nat)
    requires 3 <= i <= 7
    ensures Place(i - 1) == Place(i) * 10 && num / Place(i) / 10 == num / Place(i - 1)
    ensures Digit(num, Place(i)) == '0' as int + num / Place(i) % 10
  {}

  lemma LastPlace(num: nat)
    ensures Place(7) == 1 && num / Place(7) == num
  {}

  lemma NameOf(num: nat, name: seq<byte>)
    requires |name| == 11 && name[..3] == LogName(num)[..3] && name[8..] == LogName(num)[8..]
    requires forall j :: 3 <= j <= 7 ==> name[j] == Digit(num, Place(j))
    ensures name == LogName(num)
  {
    hide Digit;
    assert name == name[..3] + [name[3], name[4], name[5], name[6], name[7]] + name[8..];
  }

  method MakeLogname(num: nat) returns (name: array<byte>)
    ensures fresh(name) && name[..] == LogName(num)
  {
    hide Place, Digit;
    name := new byte[11](_ => 0);
    var n := num;
    name[0], name[1], name[2] := 'L' as int, 'O' as int, 'G' as int;
    var i := 7;
    ghost var place := 1;
    LastPlace(num);
    while i >= 3
      invariant 2 <= i <= 7 && place == Place(i)
      invariant n == num / place
      invariant name[..3] == LogName(num)[..3]
      invariant forall j :: i < j <= 7 ==> name[j] == Digit(num, Place(j))
    {
      NextPlace(num, i);
      name[i] := '0' as int + n % 10;
      n := n / 10;
      place := place * 10;
      i := i - 1;
    }
    name[8], name[9], name[10] := 'T' as int, 'X' as int, 'T' as int;
    NameOf(num, name[..]);
  }

  /** Distinct numbers of at most five digits give distinct names. */
  lemma LogNameInjective(a: nat, b: nat)
    requires a < 10_0000 && b < 10_0000 && LogName(a) == LogName(b)
    ensures a == b
  {
    forall i: nat | 3 <= i < 8 ensures LogName(a)[i] == LogName(b)[i] {}
    assert LogName(a)[3] == LogName(b)[3] && LogName(a)[4] == LogName(b)[4] && LogName(a)[5] == LogName(b)[5];
    assert LogName(a)[6] == LogName(b)[6] && LogName(a)[7] == LogName(b)[7];
    FromDigits(a);
    FromDigits(b);
  }

  lemma FromDigits(a: nat)
    requires a < 10_0000
    ensures a == a / 10000 % 10 * 10000 + a / 1000 % 10 * 1000 + a / 100 % 10 * 100 + a / 10 % 10 * 10 + a / 1 % 10
  {
    Tens(a);
    Tens(a / 10);
    Tens(a / 10 / 10);
    Tens(a / 10 / 10 / 10);
    HundredAndMore(a);
  }

  lemma Tens(a: nat)
    ensures a == a / 10 * 10 + a % 10
  {}

  lemma HundredAndMore(a: nat)
    ensures a / 10 / 10 == a / 100 && a / 100 / 10 == a / 1000 && a / 1000 / 10 == a / 10000
  {}

  // ---- slots ------------------------------------------------------------------------

  const SLOT := 32
  const SLOTS_PER_SECTOR := 16
  const END_MARK: byte := 0x00
  const DELETED: byte := 0xE5

  type Slot = s: seq<byte> | |s| == SLOT witness Zeros(SLOT)

  function SlotAt(d: Disk, lbas: seq<nat>, n: nat): Slot
    requires n < SLOTS_PER_SECTOR * |lbas|
  {
    Get(d, lbas[n / SLOTS_PER_SECTOR])[n % SLOTS_PER_SECTOR * SLOT..n % SLOTS_PER_SECTOR * SLOT + SLOT]
  }

  /** The slots of a directory that occupies the given sectors, in directory order. */
  function Slots(d: Disk, lbas: seq<nat>): (slots: seq<Slot>)
    ensures |slots| == SLOTS_PER_SECTOR * |lbas|
    ensures forall n :: 0 <= n < |slots| ==> slots[n] == SlotAt(d, lbas, n)
  {
    seq(SLOTS_PER_SECTOR * |lbas|, n requires 0 <= n < SLOTS_PER_SECTOR * |lbas| => SlotAt(d, lbas, n))
  }

  predicate IsVolumeLabel(s: Slot) { s[11] / 0x08 % 2 == 1 }
  predicate IsSubdirectory(s: Slot) { s[11] / 0x10 % 2 == 1 }

  /** An entry of an ordinary file. */
  predicate Eligible(s: Slot) {
    s[0] != END_MARK && s[0] != DELETED && !IsVolumeLabel(s) && !IsSubdirectory(s)
  }

  /** The two attribute bits that rule an entry out, whatever the others are. */
  lemma AttributeBits(s: Slot, low: nat, volume: nat, dir: nat, high: nat)
    requires low < 8 && volume < 2 && dir < 2 && high < 8
    requires s[11] == low + 0x08 * volume + 0x10 * dir + 0x20 * high
    ensures Eligible(s) <==> s[0] != 0x00 && s[0] != 0xE5 && volume == 0 && dir == 0
    ensures Free(s) <==> s[0] == 0x00 || s[0] == 0xE5
  {
    Quotient(s[11], 0x08, volume + 2 * (dir + 2 * high), low);
    Quotient(s[11], 0x10, dir + 2 * high, low + 0x08 * volume);
    Quotient(volume + 2 * (dir + 2 * high), 2, dir + 2 * high, volume);
    Quotient(dir + 2 * high, 2, high, dir);
  }

  lemma Quotient(a: nat, w: nat, q: nat, r: nat)
    requires w in {2, 0x08, 0x10} && a == q * w + r && r < w
    ensures a / w == q && a % w == r
  {}

  predicate Free(s: Slot) { s[0] == END_MARK || s[0] == DELETED }

  datatype Option<T> = None | Some(value: T)

  datatype ScanResult = Found(slot: nat) | Missing(free: Option<nat>)

  /** The scan from slot n on, with the free slot seen so far. */
  function ScanFrom(slots: seq<Slot>, name: seq<byte>, n: nat, free: Option<nat>): ScanResult
    requires n <= |slots|
    decreases |slots| - n
  {
    if n == |slots| then Missing(free)
    else
      var s := slots[n];
      var seen := if free.None? then Some(n) else free;
      if s[0] == END_MARK then Missing(seen)
      else if s[0] == DELETED then ScanFrom(slots, name, n + 1, seen)
      else if !Eligible(s) then ScanFrom(slots, name, n + 1, free)
      else if s[..11] == name then Found(n)
      else ScanFrom(slots, name, n + 1, free)
  }

  function Scan(slots: seq<Slot>, name: seq<byte>): ScanResult {
    ScanFrom(slots, name, 0, None)
  }

  /** Slot n comes before the end-of-directory mark. */
  ghost predicate Live(slots: seq<Slot>, n: nat) {
    n < |slots| && forall m :: 0 <= m < n ==> slots[m][0] != END_MARK
  }

  ghost predicate Matches(slots: seq<Slot>, name: seq<byte>, n: nat) {
    Live(slots, n) && Eligible(slots[n]) && slots[n][..11] == name
  }

  ghost predicate FirstMatch(slots: seq<Slot>, name: seq<byte>, n: nat) {
    Matches(slots, name, n) && forall m: nat :: m < n ==> !Matches(slots, name, m)
  }

  /** free is the first slot that is deleted or the end mark, if there is one. */
  ghost predicate FirstFree(slots: seq<Slot>, free: Option<nat>) {
    match free
    case Some(n) => n < |slots| && Free(slots[n]) && forall m :: 0 <= m < n ==> !Free(slots[m])
    case None => forall m :: 0 <= m < |slots| ==> !Free(slots[m])
  }

  lemma {:induction false} ScanFromMeaning(slots: seq<Slot>, name: seq<byte>, n: nat, free: Option<nat>)
    requires n <= |slots| && (n < |slots| ==> Live(slots, n))
    requires forall m: nat :: m < n ==> !Matches(slots, name, m) && slots[m][0] != END_MARK
    requires match free
             case Some(k) => k < n && Free(slots[k]) && forall m :: 0 <= m < k ==> !Free(slots[m])
             case None => forall m :: 0 <= m < n ==> !Free(slots[m])
    ensures match ScanFrom(slots, name, n, free)
            case Found(k) => FirstMatch(slots, name, k)
            case Missing(f) => FirstFree(slots, f) && forall m: nat :: !Matches(slots, name, m)
    decreases |slots| - n
  {
    if n < |slots| && slots[n][0] != END_MARK && !(Eligible(slots[n]) && slots[n][..11] == name) {
      var seen := if free.None? then Some(n) else free;
      ScanFromMeaning(slots, name, n + 1, if slots[n][0] == DELETED then seen else free);
    }
  }

  /** The scan finds the first eligible entry with the name exactly when there is one
      before the end mark, and otherwise the first free slot, if any. */
  lemma ScanMeaning(slots: seq<Slot>, name: seq<byte>)
    ensures forall n: nat :: Scan(slots, name) == Found(n) <==> FirstMatch(slots, name, n)
    ensures Scan(slots, name).Missing? <==> forall n: nat :: !Matches(slots, name, n)
    ensures Scan(slots, name).Missing? ==> FirstFree(slots, Scan(slots, name).free)
  {
    ScanFromMeaning(slots, name, 0, None);
  }

  /** The scan looks at names and attributes only. */
  lemma {:induction false} ScanFromSame(a: seq<Slot>, b: seq<Slot>, name: seq<byte>, n: nat, free: Option<nat>)
    requires |a| == |b| && n <= |a| && forall m :: 0 <= m < |a| ==> a[m][..12] == b[m][..12]
    ensures ScanFrom(a, name, n, free) == ScanFrom(b, name, n, free)
    decreases |a| - n
  {
    if n < |a| {
      var seen := if free.None? then Some(n) else free;
      assert a[n][0] == a[n][..12][0] && b[n][0] == b[n][..12][0];
      assert a[n][11] == a[n][..12][11] && b[n][11] == b[n][..12][11];
      assert a[n][..11] == a[n][..12][..11] && b[n][..11] == b[n][..12][..11];
      ScanFromSame(a, b, name, n + 1, free);
      ScanFromSame(a, b, name, n + 1, seen);
    }
  }

  // ---- insertion ----------------------------------------------------------------------

  /** Nothing but end marks follows an end mark. */
  ghost predicate TailClean(slots: seq<Slot>) {
    forall m, n :: 0 <= m < n < |slots| && slots[m][0] == END_MARK ==> slots[n][0] == END_MARK
  }

  /** Filling the free slot that the scan reports makes the new entry the only match of
      its name, changes no match of any other name and keeps the tail clean. */
  lemma InsertUnique(slots: seq<Slot>, name: seq<byte>, n: nat, entry: Slot, after: seq<Slot>)
    requires Scan(slots, name) == Missing(Some(n)) && TailClean(slots)
    requires Eligible(entry) && entry[..11] == name
    requires n < |slots| && after == slots[n := entry]
    ensures forall m: nat :: Matches(after, name, m) <==> m == n
    ensures forall other: seq<byte>, m: nat :: other != name ==>
            (Matches(after, other, m) <==> Matches(slots, other, m))
    ensures TailClean(after)
  {
    ScanMeaning(slots, name);
    assert forall m :: 0 <= m < n ==> slots[m][0] != END_MARK;
    forall m: nat ensures Matches(after, name, m) <==> m == n {
      assert !Matches(slots, name, m);
      if n < m < |slots| && slots[m][0] != END_MARK {
        LiveAfter(slots, n, entry, m);
      }
    }
    forall other: seq<byte>, m: nat | other != name
      ensures Matches(after, other, m) <==> Matches(slots, other, m)
    {
      if n < m < |slots| && slots[m][0] != END_MARK {
        LiveAfter(slots, n, entry, m);
      }
    }
  }

  lemma LiveAfter(slots: seq<Slot>, n: nat, entry: Slot, m: nat)
    requires n < m < |slots| && entry[0] != END_MARK && slots[m][0] != END_MARK && TailClean(slots)
    ensures Live(slots[n := entry], m) && Live(slots, m)
  {}

  // ---- slots on disk ---------------------------------------------------------------------

  /** No sector address occurs twice on a chain without repetitions. */
  lemma {:induction false} ChainLbasApart(v: Volume, p: seq<nat>, i: nat, j: nat)
    requires Clusters(p) && NoDup(p) && i < j < Times(|p|, v.secPerClus)
    ensures ChainLbas(v, p)[i] != ChainLbas(v, p)[j]
  {
    var a, s := Decompose(i, |p|, v.secPerClus);
    var b, t := Decompose(j, |p|, v.secPerClus);
    ChainLbaAt(v, p, a, s);
    ChainLbaAt(v, p, b, t);
    hide ChainLbas, Times;
    DataSectorsApart(v, p[a], s, p[b], t);
  }

  /** Writing directory sector k changes the slots of that sector only. */
  lemma SlotsUpdate(d: Disk, lbas: seq<nat>, k: nat, data: Sector)
    requires NoDup(lbas) && k < |lbas|
    ensures forall n :: 0 <= n < SLOTS_PER_SECTOR * |lbas| ==>
              Slots(d[lbas[k] := data], lbas)[n] ==
              if n / SLOTS_PER_SECTOR == k then data[n % SLOTS_PER_SECTOR * SLOT..n % SLOTS_PER_SECTOR * SLOT + SLOT]
              else Slots(d, lbas)[n]
  {
    forall n | 0 <= n < SLOTS_PER_SECTOR * |lbas|
      ensures Slots(d[lbas[k] := data], lbas)[n] ==
              if n / SLOTS_PER_SECTOR == k then data[n % SLOTS_PER_SECTOR * SLOT..n % SLOTS_PER_SECTOR * SLOT + SLOT]
              else Slots(d, lbas)[n]
    {
      GetUpdate(d, lbas[k], data, lbas[n / SLOTS_PER_SECTOR]);
    }
  }

  /** Splicing a whole entry into a directory sector replaces one slot. */
  lemma InsertOnDisk(d: Disk, lbas: seq<nat>, n: nat, entry: Slot)
    requires NoDup(lbas) && n < SLOTS_PER_SECTOR * |lbas|
    ensures var lba := lbas[n / SLOTS_PER_SECTOR];
            var e := d[lba := Splice(Get(d, lba), n % SLOTS_PER_SECTOR * SLOT, entry)];
            Slots(e, lbas) == Slots(d, lbas)[n := entry]
  {
    var k := n / SLOTS_PER_SECTOR;
    var data := Splice(Get(d, lbas[k]), n % SLOTS_PER_SECTOR * SLOT, entry);
    SlotsUpdate(d, lbas, k, data);
    var after := Slots(d[lbas[k] := data], lbas);
    var want := Slots(d, lbas)[n := entry];
    forall m | 0 <= m < |want| ensures after[m] == want[m] {
      if m / SLOTS_PER_SECTOR == k {
        SplicedSlot(Get(d, lbas[k]), n % SLOTS_PER_SECTOR, entry, m % SLOTS_PER_SECTOR);
      }
    }
  }

  lemma SplicedSlot(s: Sector, j: nat, entry: Slot, i: nat)
    requires i < SLOTS_PER_SECTOR && j < SLOTS_PER_SECTOR
    ensures Splice(s, j * SLOT, entry)[i * SLOT..i * SLOT + SLOT] ==
            if i == j then entry else s[i * SLOT..i * SLOT + SLOT]
  {}

  lemma SizeOutside(a: Sector, b: Sector, off: nat, o: nat)
    requires off % SLOT == 0 && o % SLOT == 0 && off + 32 <= SECTOR_SIZE && o + 32 <= SECTOR_SIZE &&
             SameButSize(a, b, off)
    ensures b[o..o + SLOT][..12] == a[o..o + SLOT][..12]
  {}

  /** Changes to the size field of one entry leave every scan as it was, for any name. */
  lemma SizeFieldsKeepScans(d: Disk, e: Disk, lbas: seq<nat>, lba: nat, off: nat, name: seq<byte>)
    requires off % SLOT == 0 && off + 32 <= SECTOR_SIZE && SameButSize(Get(d, lba), Get(e, lba), off)
    requires forall j :: 0 <= j < |lbas| && lbas[j] != lba ==> Get(e, lbas[j]) == Get(d, lbas[j])
    ensures Scan(Slots(e, lbas), name) == Scan(Slots(d, lbas), name)
  {
    hide ScanFrom, SameButSize;
    var x, y := Slots(e, lbas), Slots(d, lbas);
    forall n | 0 <= n < |x| ensures x[n][..12] == y[n][..12] {
      var l := lbas[n / SLOTS_PER_SECTOR];
      assert x[n] == SlotAt(e, lbas, n) && y[n] == SlotAt(d, lbas, n);
      if l == lba {
        SizeOutside(Get(d, l), Get(e, l), off, n % SLOTS_PER_SECTOR * SLOT);
      }
    }
    hide Slots;
    ScanFromSame(x, y, name, 0, None);
  }

  /** A size update, of any slot of the directory, is such a change. */
  lemma SizeKeepsScans(d: Disk, lbas: seq<nat>, n: nat, size: nat, name: seq<byte>)
    requires n < SLOTS_PER_SECTOR * |lbas| && size < U32
    ensures var lba := lbas[n / SLOTS_PER_SECTOR];
            var e := d[lba := WithSize(Get(d, lba), n % SLOTS_PER_SECTOR * SLOT, size)];
            Scan(Slots(e, lbas), name) == Scan(Slots(d, lbas), name)
  {
    hide Scan, Slots;
    var lba, off := lbas[n / SLOTS_PER_SECTOR], n % SLOTS_PER_SECTOR * SLOT;
    SizeFieldsKeepScans(d, d[lba := WithSize(Get(d, lba), off, size)], lbas, lba, off, name);
  }

  // ---- the scan ------------------------------------------------------------------------------

  method NameMatches(buf: array<byte>, off: nat, name: seq<byte>) returns (same: bool)
    requires |name| == 11 && off + 11 <= buf.Length
    ensures same <==> buf[off..off + 11] == name
  {
    same := true;
    for j := 0 to 11
      invariant same && buf[off..off + j] == name[..j]
    {
      if buf[off + j] != name[j] {
        assert buf[off..off + 11][j] != name[j];
        return false;
      }
    }
  }

  /** The program's record of the first free slot stands for `free`. */
  ghost predicate Records(lbas: seq<nat>, free: Option<nat>, lba: nat, off: nat) {
    match free
    case None => lba == 0
    case Some(n) => SlotPlace(lbas, n, lba, off)
  }

  /** free is the first free slot before `bound`, if there is one. */
  ghost predicate FreeBefore(slots: seq<Slot>, free: Option<nat>, bound: nat) {
    match free
    case Some(n) => n < bound && n < |slots| && Free(slots[n]) && forall m :: 0 <= m < n ==> !Free(slots[m])
    case None => forall m :: 0 <= m < bound && m < |slots| ==> !Free(slots[m])
  }

  /** Where slot n of the directory lies on disk. */
  ghost predicate SlotPlace(lbas: seq<nat>, n: nat, lba: nat, off: nat) {
    n < SLOTS_PER_SECTOR * |lbas| && lba == lbas[n / SLOTS_PER_SECTOR] && off == n % SLOTS_PER_SECTOR * SLOT
  }

  /** The scan has come to slot n with `free` as the first free slot met. */
  ghost predicate Reached(slots: seq<Slot>, name: seq<byte>, n: nat, free: Option<nat>) {
    n <= |slots| && Scan(slots, name) == ScanFrom(slots, name, n, free) && FreeBefore(slots, free, n)
  }

  /** The scan ends with a match in the given place. */
  ghost predicate HitAt(slots: seq<Slot>, name: seq<byte>, lbas: seq<nat>, lba: nat, off: nat, free: Option<nat>) {
    var r := Scan(slots, name);
    r.Found? && SlotPlace(lbas, r.slot, lba, off) && FreeBefore(slots, free, r.slot)
  }

  datatype SectorScan = GoOn | EndOfDirectory | Hit(off: nat)

  /** The innermost loop: the slots of directory sector k, which is in the buffer. */
  method ScanSector(buf: array<byte>, name: seq<byte>, lba: nat, got: bool, emptyLba: nat, emptyOff: nat,
                    ghost slots: seq<Slot>, ghost lbas: seq<nat>, ghost k: nat, ghost free: Option<nat>)
    returns (r: SectorScan, got': bool, emptyLba': nat, emptyOff': nat, ghost free': Option<nat>)
    requires |name| == 11 && buf.Length >= SECTOR_SIZE && k < |lbas| && lbas[k] == lba
    requires |slots| == SLOTS_PER_SECTOR * |lbas|
    requires forall j :: 0 <= j < SLOTS_PER_SECTOR ==> slots[SLOTS_PER_SECTOR * k + j] == buf[SLOT * j..SLOT * j + SLOT]
    requires got == free.Some? && Records(lbas, free, emptyLba, emptyOff) &&
             Reached(slots, name, SLOTS_PER_SECTOR * k, free)
    ensures Records(lbas, free', emptyLba', emptyOff')
    ensures match r
            case GoOn => got' == free'.Some? && Reached(slots, name, SLOTS_PER_SECTOR * (k + 1), free')
            case EndOfDirectory => Scan(slots, name) == Missing(free')
            case Hit(off) => HitAt(slots, name, lbas, lba, off, free')
  {
    hide Reached, Records, Scan;
    got', emptyLba', emptyOff', free' := got, emptyLba, emptyOff, free;
    var e := 0;
    ghost var j := 0;
    while e < SECTOR_SIZE
      invariant e == SLOT * j && 0 <= j <= SLOTS_PER_SECTOR
      invariant got' == free'.Some? && Records(lbas, free', emptyLba', emptyOff')
      invariant Reached(slots, name, SLOTS_PER_SECTOR * k + j, free')
    {
      ghost var n := SLOTS_PER_SECTOR * k + j;
      InPlace(lbas, k, j);
      ScanSlot(slots, name, lbas, n, lba, e, free');
      SlotBytes(buf, e, slots[n]);
      if buf[e] == END_MARK {
        if !got' {
          emptyLba', emptyOff', free' := lba, e, Some(n);
        }
        return EndOfDirectory, got', emptyLba', emptyOff', free';
      }
      if buf[e] == DELETED {
        if !got' {
          emptyLba', emptyOff', got', free' := lba, e, true, Some(n);
        }
      } else if buf[e + 11] / 0x08 % 2 == 1 || buf[e + 11] / 0x10 % 2 == 1 {
        // volume label or subdirectory
      } else {
        var same := NameMatches(buf, e, name);
        if same {
          return Hit(e), got', emptyLba', emptyOff', free';
        }
      }
      e := e + SLOT;
      j := j + 1;
    }
    r := GoOn;
  }

  lemma SlotBytes(buf: array<byte>, e: nat, s: Slot)
    requires e + SLOT <= buf.Length && s == buf[e..e + SLOT]
    ensures s[0] == buf[e] && s[11] == buf[e + 11] && s[..11] == buf[e..e + 11]
  {}

  lemma InPlace(lbas: seq<nat>, k: nat, j: nat)
    requires k < |lbas| && j < SLOTS_PER_SECTOR
    ensures SlotPlace(lbas, SLOTS_PER_SECTOR * k + j, lbas[k], SLOT * j)
  {}

  /** What one slot means for the scan. */
  lemma ScanSlot(slots: seq<Slot>, name: seq<byte>, lbas: seq<nat>, n: nat, lba: nat, off: nat,
                 free: Option<nat>)
    requires n < |slots| == SLOTS_PER_SECTOR * |lbas| && Reached(slots, name, n, free) && SlotPlace(lbas, n, lba, off)
    ensures var s := slots[n];
            var seen := if free.None? then Some(n) else free;
            && Records(lbas, Some(n), lba, off)
            && if s[0] == END_MARK then Scan(slots, name) == Missing(seen)
               else if s[0] == DELETED then Reached(slots, name, n + 1, seen)
               else if Eligible(s) && s[..11] == name then HitAt(slots, name, lbas, lba, off, free)
               else Reached(slots, name, n + 1, free)
  {}

  lemma SlotsOfSector(d: Disk, lbas: seq<nat>, k: nat, j: nat)
    requires k < |lbas| && j < SLOTS_PER_SECTOR
    ensures Slots(d, lbas)[SLOTS_PER_SECTOR * k + j] == Get(d, lbas[k])[SLOT * j..SLOT * j + SLOT]
  {
    var n := SLOTS_PER_SECTOR * k + j;
    assert n / SLOTS_PER_SECTOR == k && n % SLOTS_PER_SECTOR == j;
    assert Slots(d, lbas)[n] == SlotAt(d, lbas, n);
  }

  lemma SliceOfPrefix(buf: array<byte>, n: nat, a: nat, b: nat)
    requires a <= b <= n <= buf.Length
    ensures buf[a..b] == buf[..n][a..b]
  {}

  lemma SectorInBuffer(d: Disk, lbas: seq<nat>, k: nat, buf: array<byte>)
    requires k < |lbas| && buf.Length >= SECTOR_SIZE && buf[..SECTOR_SIZE] == Get(d, lbas[k])
    ensures forall j :: 0 <= j < SLOTS_PER_SECTOR ==>
              Slots(d, lbas)[SLOTS_PER_SECTOR * k + j] == buf[SLOT * j..SLOT * j + SLOT]
  {
    hide Slots, Get;
    forall j | 0 <= j < SLOTS_PER_SECTOR
      ensures Slots(d, lbas)[SLOTS_PER_SECTOR * k + j] == buf[SLOT * j..SLOT * j + SLOT]
    {
      SlotsOfSector(d, lbas, k, j);
      SliceOfPrefix(buf, SECTOR_SIZE, SLOT * j, SLOT * j + SLOT);
    }
  }

  /** The middle loop: the sectors of one directory cluster. */
  method ScanCluster(card: SdCard, ring: array<byte>, spc: nat, name: seq<byte>, lba: nat,
                     got: bool, emptyLba: nat, emptyOff: nat, ghost lbas: seq<nat>, ghost k: nat,
                     ghost free: Option<nat>)
    returns (st: Status, r: SectorScan, at: nat, got': bool, emptyLba': nat, emptyOff': nat, ghost free': Option<nat>)
    requires |name| == 11 && ring.Length >= SECTOR_SIZE
    requires k + spc <= |lbas| && forall s :: k <= s < k + spc ==> lbas[s] == lba + (s - k)
    requires got == free.Some? && Records(lbas, free, emptyLba, emptyOff)
    requires Reached(Slots(card.disk, lbas), name, SLOTS_PER_SECTOR * k, free)
    modifies card`failures, ring
    ensures card.failures == old(card.failures) + Failed(st)
    ensures st in {Ok, SdError}
    ensures st.Ok? ==> Records(lbas, free', emptyLba', emptyOff')
    ensures st.Ok? ==> var slots := Slots(card.disk, lbas);
            match r
            case GoOn => got' == free'.Some? && Reached(slots, name, SLOTS_PER_SECTOR * (k + spc), free')
            case EndOfDirectory => Scan(slots, name) == Missing(free')
            case Hit(off) => HitAt(slots, name, lbas, at, off, free')
    ensures Upper(ring) == old(Upper(ring))
  {
    hide Scan, Slots, Records, Reached, HitAt, Upper, Get;
    got', emptyLba', emptyOff', free', at := got, emptyLba, emptyOff, free, lba;
    r := GoOn;
    ghost var slots := Slots(card.disk, lbas);
    for s := 0 to spc
      invariant card.failures == old(card.failures)
      invariant got' == free'.Some? && Records(lbas, free', emptyLba', emptyOff')
      invariant Reached(slots, name, SLOTS_PER_SECTOR * (k + s), free')
      invariant Upper(ring) == old(Upper(ring))
    {
      st := card.ReadSector(lba + s, ring);
      if !st.Ok? {
        return;
      }
      GetIn(card.disk, lba + s);
      SectorInBuffer(card.disk, lbas, k + s, ring);
      r, got', emptyLba', emptyOff', free' :=
        ScanSector(ring, name, lba + s, got', emptyLba', emptyOff', slots, lbas, k + s, free');
      if !r.GoOn? {
        at := lba + s;
        return;
      }
    }
    st, r := Ok, GoOn;
  }

  /** The directory of a volume: the terminated chain from its root cluster. */
  ghost predicate RootChain(d: Disk, v: Volume, hi: nat, p: seq<nat>) {
    && v.Fits(hi) && IsChain(FatView(d, v, 0), p) && p[0] == v.rootClus
    && forall i :: 0 <= i < |p| ==> 2 <= p[i] < hi
  }

  predicate EndsScan(entry: nat) { entry < 2 || entry >= EOC_MIN }

  /** The clusters the scan walks: from the root cluster to the first entry that is no cluster
      number, be it an end mark or a zero. */
  ghost predicate RootPath(d: Disk, v: Volume, hi: nat, p: seq<nat>) {
    && v.Fits(hi)
    && (forall i :: 0 <= i < |p| ==> 2 <= p[i] < hi)
    && (forall i :: 0 <= i < |p| - 1 ==> EntryAt(d, v, 0, p[i]) == p[i + 1])
    && if p == [] then EndsScan(v.rootClus) else p[0] == v.rootClus && EndsScan(EntryAt(d, v, 0, p[|p| - 1]))
  }

  lemma RootChainIsPath(d: Disk, v: Volume, hi: nat, p: seq<nat>)
    requires RootChain(d, v, hi, p)
    ensures RootPath(d, v, hi, p)
  {
    hide EntryAt, FatView;
    forall i | 0 <= i < |p| ensures EntryAt(d, v, 0, p[i]) == FatView(d, v, 0)[p[i]] {}
  }

  /** Slot number where cluster i of a directory begins. */
  ghost function FirstSlot(v: Volume, i: nat): nat { SLOTS_PER_SECTOR * Times(i, v.secPerClus) }

  /** The sectors of cluster number i of the directory chain. */
  method ScanChainCluster(card: SdCard, ring: array<byte>, v: Volume, name: seq<byte>, clus: nat,
                          got: bool, emptyLba: nat, emptyOff: nat,
                          ghost hi: nat, ghost p: seq<nat>, ghost i: nat, ghost free: Option<nat>)
    returns (st: Status, r: SectorScan, at: nat, got': bool, emptyLba': nat, emptyOff': nat, ghost free': Option<nat>)
    requires |name| == 11 && ring.Length >= SECTOR_SIZE && RootPath(card.disk, v, hi, p) && i < |p| && clus == p[i]
    requires got == free.Some? && Records(ChainLbas(v, p), free, emptyLba, emptyOff)
    requires Reached(Slots(card.disk, ChainLbas(v, p)), name, FirstSlot(v, i), free)
    modifies card`failures, ring
    ensures card.failures == old(card.failures) + Failed(st)
    ensures st in {Ok, SdError}
    ensures st.Ok? ==> Records(ChainLbas(v, p), free', emptyLba', emptyOff')
    ensures st.Ok? ==> var slots := Slots(card.disk, ChainLbas(v, p));
            match r
            case GoOn => got' == free'.Some? && Reached(slots, name, FirstSlot(v, i + 1), free')
            case EndOfDirectory => Scan(slots, name) == Missing(free')
            case Hit(off) => HitAt(slots, name, ChainLbas(v, p), at, off, free')
    ensures Upper(ring) == old(Upper(ring))
  {
    hide Scan, Slots, Times, ChainLbas, ClusToLba, Records, Reached, Upper, IsChain, HitAt, FatView;
    var lba := ClusToLba(v, clus);
    ClusterSectors(v, hi, p, i);
    st, r, at, got', emptyLba', emptyOff', free' :=
      ScanCluster(card, ring, v.secPerClus, name, lba, got, emptyLba, emptyOff,
                  ChainLbas(v, p), Times(i, v.secPerClus), free);
  }

  /** The variables the program returns say what Scan finds. */
  ghost predicate Answered(slots: seq<Slot>, name: seq<byte>, lbas: seq<nat>, found: bool, foundLba: nat, foundOff: nat,
                           emptyLba: nat, emptyOff: nat, free: Option<nat>)
  {
    && Records(lbas, free, emptyLba, emptyOff)
    && if found then HitAt(slots, name, lbas, foundLba, foundOff, free) else Scan(slots, name) == Missing(free)
  }

  /** The scan along the chain of the root directory reports exactly what Scan finds in
      the slots of that directory, for any directory whose chain ends. */
  method ScanRootDir(card: SdCard, ring: array<byte>, v: Volume, name: seq<byte>, ghost hi: nat, ghost p: seq<nat>)
    returns (st: Status, found: bool, foundLba: nat, foundOff: nat, emptyLba: nat, emptyOff: nat,
             ghost free: Option<nat>)
    requires |name| == 11 && ring.Length >= SECTOR_SIZE && RootPath(card.disk, v, hi, p)
    modifies card`failures, ring
    ensures card.failures == old(card.failures) + Failed(st)
    ensures st in {Ok, SdError}
    ensures st.Ok? ==>
              Answered(Slots(card.disk, ChainLbas(v, p)), name, ChainLbas(v, p),
                       found, foundLba, foundOff, emptyLba, emptyOff, free)
    ensures Upper(ring) == old(Upper(ring))
  {
    hide Scan, Slots, FirstSlot, ChainLbas, FatView, EntryAt, Records, Reached, Upper, RootPath, HitAt, Times, EndsScan,
         Volume.Fits;
    found, foundLba, foundOff, emptyLba, emptyOff := false, 0, 0, 0, 0;
    var clus, got := v.rootClus, false;
    ScanStart(card.disk, v, hi, p, name, emptyOff);
    ghost var lbas := ChainLbas(v, p);
    ghost var slots := Slots(card.disk, lbas);
    ghost var i := 0;
    free := None;
    PathEntry(card.disk, v, hi, p, 0);
    while 2 <= clus < EOC_MIN
      invariant card.failures == old(card.failures)
      invariant 0 <= i <= |p| && clus == NextInPath(card.disk, v, p, i)
      invariant i < |p| <==> 2 <= clus < EOC_MIN
      invariant got == free.Some? && Records(lbas, free, emptyLba, emptyOff)
      invariant Reached(slots, name, FirstSlot(v, i), free)
      invariant Upper(ring) == old(Upper(ring))
      decreases |p| - i
    {
      PathEntry(card.disk, v, hi, p, i);
      var r, at;
      st, r, at, got, emptyLba, emptyOff, free :=
        ScanChainCluster(card, ring, v, name, clus, got, emptyLba, emptyOff, hi, p, i, free);
      if !st.Ok? {
        return;
      }
      match r {
        case EndOfDirectory =>
          return;
        case Hit(off) =>
          found, foundLba, foundOff := true, at, off;
          return;
        case GoOn =>
      }
      var next;
      st, next := FatReadEntry(card, ring, v, clus);
      if !st.Ok? {
        return;
      }
      PathEntry(card.disk, v, hi, p, i + 1);
      clus := next;
      i := i + 1;
    }
    ScanEnd(slots, name, free);
    st := Ok;
  }

  /** The number the scan comes to after i clusters. */
  ghost function NextInPath(d: Disk, v: Volume, p: seq<nat>, i: nat): nat
    requires i <= |p|
  {
    if i == 0 then v.rootClus else EntryAt(d, v, 0, p[i - 1])
  }

  lemma PathEntry(d: Disk, v: Volume, hi: nat, p: seq<nat>, i: nat)
    requires RootPath(d, v, hi, p) && i <= |p|
    ensures i < |p| ==> NextInPath(d, v, p, i) == p[i] && 2 <= p[i] < EOC_MIN
    ensures i == |p| ==> !(2 <= NextInPath(d, v, p, i) < EOC_MIN)
  {
    hide EntryAt;
  }

  lemma ScanStart(d: Disk, v: Volume, hi: nat, p: seq<nat>, name: seq<byte>, off: nat)
    requires RootPath(d, v, hi, p)
    ensures Clusters(p)
    ensures var lbas := ChainLbas(v, p);
            var slots := Slots(d, lbas);
            && Records(lbas, None, 0, off) && Reached(slots, name, FirstSlot(v, 0), None)
            && |slots| == FirstSlot(v, |p|)
  {
    hide ChainLbas, FatView, ScanFrom;
    assert FirstSlot(v, 0) == 0;
  }

  lemma ScanEnd(slots: seq<Slot>, name: seq<byte>, free: Option<nat>)
    requires Reached(slots, name, |slots|, free)
    ensures Scan(slots, name) == Missing(free)
  {}

  lemma ClusterSectors(v: Volume, hi: nat, p: seq<nat>, i: nat)
    requires v.Fits(hi) && i < |p| && forall j :: 0 <= j < |p| ==> 2 <= p[j] < hi
    ensures Times(i, v.secPerClus) + v.secPerClus == Times(i + 1, v.secPerClus) <= Times(|p|, v.secPerClus)
    ensures forall s :: Times(i, v.secPerClus) <= s < Times(i + 1, v.secPerClus) ==>
              ChainLbas(v, p)[s] == ClusToLba(v, p[i]) + (s - Times(i, v.secPerClus))
  {
    var k := Times(i, v.secPerClus);
    TimesMono(i + 1, |p|, v.secPerClus);
    assert Times(i + 1, v.secPerClus) == k + v.secPerClus;
    NoWrap(v, hi, p[i]);
    hide ChainLbas, Times, ClusToLba;
    forall s | k <= s < k + v.secPerClus ensures ChainLbas(v, p)[s] == ClusToLba(v, p[i]) + (s - k) {
      ChainLbaAt(v, p, i, s - k);
    }
  }

  lemma NextOnChain(d: Disk, v: Volume, p: seq<nat>, i: nat)
    requires IsChain(FatView(d, v, 0), p) && i < |p|
    ensures if i + 1 < |p| then EntryAt(d, v, 0, p[i]) == p[i + 1] else EntryAt(d, v, 0, p[i]) >= EOC_MIN
  {
    assert FatView(d, v, 0)[p[i]] == EntryAt(d, v, 0, p[i]);
  }
}
