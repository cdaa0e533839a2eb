/** The SD card as a map from block addresses to sectors. An operation may fail at any
    time; a write that succeeds has changed exactly its sector, and a write that fails has
    either done so or done nothing. */
module SectorDevice {
  import opened Bytes

  type Disk = map<nat, Sector>

  function Get(d: Disk, lba: nat): Sector {
    if lba in d then d[lba] else ZeroSector()
  }

  lemma GetIn(d: Disk, lba: nat)
    requires lba in d
    ensures Get(d, lba) == d[lba]
  {}

  lemma GetUpdate(d: Disk, lba: nat, data: Sector, l: nat)
    ensures Get(d[lba := data], l) == if l == lba then data else Get(d, l)
  {}

  /** Inclusive range of block addresses handed to an erase command. */
  datatype Extent = Extent(first: nat, last: nat)

  datatype Status = Ok | SdError | BadVolume | DirectoryFull

  function Failed(st: Status): nat { if st.SdError? then 1 else 0 }

  /** The part of a buffer that sector I/O does not touch. */
  ghost function Upper(buf: array<byte>): seq<byte>
    requires buf.Length >= SECTOR_SIZE
    reads buf
  {
    buf[SECTOR_SIZE..]
  }

  /** The erase command for the sectors of [lo, end). */
  function EraseOf(lo: nat, end: nat): seq<Extent> { if lo < end then [Extent(lo, end - 1)] else [] }

  /** e differs from d in the sectors first .. last only. */
  ghost predicate ChangedWithin(d: Disk, e: Disk, first: nat, last: nat) {
    forall l: nat :: !(first <= l <= last) ==> Get(e, l) == Get(d, l)
  }

  /** One sector was written, or one of the given ranges erased. */
  ghost predicate OneChange(d: Disk, e: Disk, xs: seq<Extent>) {
    || (exists l: nat :: ChangedWithin(d, e, l, l))
    || (exists i :: 0 <= i < |xs| && ChangedWithin(d, e, xs[i].first, xs[i].last))
  }

  /** The states lead from disk d to disk e, one change at a time. */
  ghost predicate Path(d: Disk, states: seq<Disk>, e: Disk, xs: seq<Extent>)
    decreases |states|
  {
    if states == [] then e == d
    else
      var n := |states| - 1;
      && e == states[n]
      && OneChange(if n == 0 then d else states[n - 1], e, xs)
      && Path(d, states[..n], if n == 0 then d else states[n - 1], xs)
  }

  lemma PathNone(d: Disk, xs: seq<Extent>)
    ensures Path(d, [], d, xs)
  {}

  lemma PathNext(d: Disk, states: seq<Disk>, m: Disk, e: Disk, xs: seq<Extent>)
    requires Path(d, states, m, xs) && OneChange(m, e, xs)
    ensures Path(d, states + [e], e, xs)
  {
    hide OneChange;
    var more := states + [e];
    assert more[..|more| - 1] == states;
  }

  lemma PathWrite(d: Disk, states: seq<Disk>, m: Disk, e: Disk, xs: seq<Extent>, lba: nat,
                  data: Sector)
    requires Path(d, states, m, xs) && e == m[lba := data]
    ensures Path(d, states + [e], e, xs)
  {
    assert ChangedWithin(m, e, lba, lba);
    PathNext(d, states, m, e, xs);
  }

  lemma {:induction false} PathJoin(d: Disk, a: seq<Disk>, m: Disk, b: seq<Disk>, e: Disk, xs: seq<Extent>)
    requires Path(d, a, m, xs) && Path(m, b, e, xs)
    ensures Path(d, a + b, e, xs)
    decreases |b|
  {
    hide OneChange;
    if b == [] {
      assert a + b == a;
    } else {
      var n := |b| - 1;
      PathJoin(d, a, m, b[..n], if n == 0 then m else b[n - 1], xs);
      assert a + b == (a + b[..n]) + [e];
      PathNext(d, a + b[..n], if n == 0 then m else b[n - 1], e, xs);
    }
  }

  /** Further erase commands do not matter. */
  lemma {:induction false} PathMore(d: Disk, states: seq<Disk>, e: Disk, xs: seq<Extent>, ys: seq<Extent>)
    requires Path(d, states, e, xs) && forall x :: x in xs ==> x in ys
    ensures Path(d, states, e, ys)
    decreases |states|
  {
    if states != [] {
      var n := |states| - 1;
      var m := if n == 0 then d else states[n - 1];
      PathMore(d, states[..n], m, xs, ys);
      MoreErased(m, e, xs, ys);
    }
  }

  lemma MoreErased(d: Disk, e: Disk, xs: seq<Extent>, ys: seq<Extent>)
    requires OneChange(d, e, xs) && forall x :: x in xs ==> x in ys
    ensures OneChange(d, e, ys)
  {
    hide ChangedWithin;
    if i :| 0 <= i < |xs| && ChangedWithin(d, e, xs[i].first, xs[i].last) {
      assert xs[i] in ys;
      var j :| 0 <= j < |ys| && ys[j] == xs[i];
    }
  }

  class SdCard {
    var disk: Disk
    /** The disk after each change made so far: what a power loss may leave behind. */
    ghost var hist: seq<Disk>
    /** The erase commands issued so far. */
    ghost var erases: seq<Extent>
    /** How many commands have reported an error so far. */
    ghost var failures: nat

    constructor (d: Disk)
      ensures disk == d && hist == [] && erases == [] && failures == 0
    {
      disk, hist, erases, failures := d, [], [], 0;
    }

    twostate predicate Untouched()
      reads this
    {
      disk == old(disk) && hist == old(hist) && erases == old(erases)
    }

    twostate predicate Wrote(lba: nat, data: Sector)
      reads this
    {
      && lba in old(disk)
      && disk == old(disk)[lba := data]
      && hist == old(hist) + [disk]
      && erases == old(erases)
    }

    method ReadSector(lba: nat, buf: array<byte>) returns (st: Status)
      requires buf.Length >= SECTOR_SIZE
      modifies this`failures, buf
      ensures st in {Ok, SdError} && failures == old(failures) + Failed(st)
      ensures st.Ok? ==> lba in disk && buf[..SECTOR_SIZE] == disk[lba]
      ensures Upper(buf) == old(Upper(buf))
    {
      if * {
        failures := failures + 1;
        return SdError;
      }
      if lba !in disk {
        failures := failures + 1;
        return SdError;
      }
      var data := disk[lba];
      for i := 0 to SECTOR_SIZE
        invariant buf[..i] == data[..i] && failures == old(failures)
        invariant Upper(buf) == old(Upper(buf))
      {
        buf[i] := data[i];
      }
      return Ok;
    }

    /** The write all write commands come down to. */
    method Put(lba: nat, data: Sector) returns (st: Status)
      modifies this
      ensures st in {Ok, SdError} && failures == old(failures) + Failed(st)
      ensures st.Ok? ==> Wrote(lba, data)
      ensures st.SdError? ==> Untouched() || Wrote(lba, data)
    {
      if * {
        failures := failures + 1;
        return SdError;
      }
      if lba !in disk {
        failures := failures + 1;
        return SdError;
      }
      disk := disk[lba := data];
      hist := hist + [disk];
      if * {
        failures := failures + 1;
        return SdError;
      }
      return Ok;
    }

    method WriteSector(lba: nat, buf: array<byte>) returns (st: Status)
      requires buf.Length >= SECTOR_SIZE
      modifies this
      ensures st in {Ok, SdError} && failures == old(failures) + Failed(st)
      ensures st.Ok? ==> Wrote(lba, buf[..SECTOR_SIZE])
      ensures st.SdError? ==> Untouched() || Wrote(lba, buf[..SECTOR_SIZE])
    {
      st := Put(lba, buf[..SECTOR_SIZE]);
    }

    /** Two spans of the same buffer, sent one after the other. */
    method WriteSectorZc(lba: nat, buf: array<byte>, offA: nat, lenA: nat, offB: nat, lenB: nat)
      returns (st: Status)
      requires lenA + lenB == SECTOR_SIZE
      requires offA + lenA <= buf.Length && offB + lenB <= buf.Length
      modifies this
      ensures st in {Ok, SdError} && failures == old(failures) + Failed(st)
      ensures st.Ok? ==> Wrote(lba, buf[offA..offA + lenA] + buf[offB..offB + lenB])
      ensures st.SdError? ==> Untouched() || Wrote(lba, buf[offA..offA + lenA] + buf[offB..offB + lenB])
    {
      st := Put(lba, buf[offA..offA + lenA] + buf[offB..offB + lenB]);
    }

    method WriteZeroSector(lba: nat) returns (st: Status)
      modifies this
      ensures st in {Ok, SdError} && failures == old(failures) + Failed(st)
      ensures st.Ok? ==> Wrote(lba, ZeroSector())
      ensures st.SdError? ==> Untouched() || Wrote(lba, ZeroSector())
    {
      st := Put(lba, ZeroSector());
    }

    /** Best effort: the sectors of the range may hold anything afterwards. */
    method Erase(first: nat, last: nat)
      modifies this
      ensures disk.Keys == old(disk.Keys) && failures == old(failures)
      ensures forall l: nat :: !(first <= l <= last) ==> Get(disk, l) == Get(old(disk), l)
      ensures hist == old(hist) + [disk]
      ensures erases == old(erases) + [Extent(first, last)]
    {
      var d: Disk :| d.Keys == disk.Keys && forall l: nat :: l in disk && !(first <= l <= last) ==> d[l] == disk[l];
      disk := d;
      hist := hist + [disk];
      erases := erases + [Extent(first, last)];
    }
  }
}
