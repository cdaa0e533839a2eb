/** The partial sector that the idle flush assembles inside the ring itself
    (log.c:118-169). */
module FlushPads {
  import opened Bytes
  import opened Rings
  import Volumes

  /** What the copy loops leave in the first 512 cells. The second span is copied forward
      onto a place that overlaps its own source, so it repeats with period lenA. */
  function Pad(cells: seq<byte>, tail: nat, avail: nat): (pad: Sector)
    requires |cells| == RING_SIZE && tail < RING_SIZE && avail < SECTOR_SIZE
  {
    var lenA := LenA(tail, avail);
    seq(SECTOR_SIZE, i requires 0 <= i < SECTOR_SIZE =>
      if i < lenA then cells[tail + i] else if i < avail then cells[(i - lenA) % lenA] else 0)
  }

  /** The sector the flush is meant to write: the queued bytes, then zeros. */
  function Wanted(cells: seq<byte>, tail: nat, avail: nat): (pad: Sector)
    requires |cells| == RING_SIZE && tail < RING_SIZE && avail < SECTOR_SIZE
  {
    SpanBytes(cells, tail, avail) + Zeros(SECTOR_SIZE - avail)
  }

  /** The second span, if there is one, is no longer than the first. */
  predicate CopySafe(tail: nat, avail: nat)
    requires tail < RING_SIZE && avail < SECTOR_SIZE
  {
    avail - LenA(tail, avail) <= LenA(tail, avail)
  }

  method BuildPad(ring: array<byte>, tail: nat, avail: nat)
    requires ring.Length == RING_SIZE && tail < RING_SIZE && avail < SECTOR_SIZE
    modifies ring
    ensures ring[..SECTOR_SIZE] == Pad(old(ring[..]), tail, avail)
    ensures ring[SECTOR_SIZE..] == old(ring[SECTOR_SIZE..])
  {
    ghost var was := ring[..];
    var span1 := RING_SIZE - tail;
    var lenA, lenB := avail, 0;
    if span1 < avail {
      lenA, lenB := span1, avail - span1;
      CopySecondSpan(ring, lenA, lenB);
    }
    CopyFirstSpan(ring, tail, lenA);
    ZeroRest(ring, avail);
    assert forall i :: 0 <= i < SECTOR_SIZE ==> ring[i] == Pad(was, tail, avail)[i];
  }

  /** The copy of ring[tail .. tail + lenA) to the front. */
  method CopyFirstSpan(ring: array<byte>, tail: nat, lenA: nat)
    requires tail + lenA <= ring.Length
    modifies ring
    ensures forall i :: 0 <= i < ring.Length ==> ring[i] == if i < lenA then old(ring[tail + i]) else old(ring[i])
  {
    for j := 0 to lenA
      invariant forall i :: 0 <= i < ring.Length ==> ring[i] == if i < j then old(ring[tail + i]) else old(ring[i])
    {
      ring[j] := ring[tail + j];
    }
  }

  method ZeroRest(ring: array<byte>, avail: nat)
    requires avail < SECTOR_SIZE <= ring.Length
    modifies ring
    ensures forall i :: 0 <= i < ring.Length ==> ring[i] == if avail <= i < SECTOR_SIZE then 0 else old(ring[i])
  {
    for j := avail to SECTOR_SIZE
      invariant forall i :: 0 <= i < ring.Length ==> ring[i] == if avail <= i < j then 0 else old(ring[i])
    {
      ring[j] := 0;
    }
  }

  /** The forward copy of ring[0 .. lenB) to ring[lenA .. lenA + lenB). */
  method CopySecondSpan(ring: array<byte>, lenA: nat, lenB: nat)
    requires 0 < lenA && lenA + lenB <= ring.Length
    modifies ring
    ensures forall i :: 0 <= i < ring.Length ==>
              ring[i] == if lenA <= i < lenA + lenB then old(ring[(i - lenA) % lenA]) else old(ring[i])
  {
    for k := 0 to lenB
      invariant forall i :: 0 <= i < ring.Length ==>
                  ring[i] == if lenA <= i < lenA + k then old(ring[(i - lenA) % lenA]) else old(ring[i])
    {
      PeriodStep(k, lenA);
      ring[lenA + k] := ring[k];
    }
  }

  lemma PeriodStep(k: nat, w: nat)
    requires w > 0
    ensures k < w ==> k % w == k
    ensures k >= w ==> (k - w) % w == k % w
  {
    if k >= w {
      var q := (k - w) / w;
      assert k - w == q * w + (k - w) % w;
      assert k == (q + 1) * w + (k - w) % w;
      ModUnique(k, w, q + 1, (k - w) % w);
    }
  }

  lemma ModUnique(k: nat, w: nat, q: nat, x: nat)
    requires w > 0 && x < w && k == q * w + x
    ensures k % w == x
  {
    var p := k / w;
    assert k == p * w + k % w;
    Volumes.TimesIsProduct(p, w);
    Volumes.TimesIsProduct(q, w);
    Volumes.PositionUnique(p, k % w, q, x, w);
  }

  lemma SafePadIsWanted(cells: seq<byte>, tail: nat, avail: nat)
    requires |cells| == RING_SIZE && tail < RING_SIZE && avail < SECTOR_SIZE && CopySafe(tail, avail)
    ensures Pad(cells, tail, avail) == Wanted(cells, tail, avail)
  {
    var lenA := LenA(tail, avail);
    forall i | 0 <= i < SECTOR_SIZE ensures Pad(cells, tail, avail)[i] == Wanted(cells, tail, avail)[i] {
      if lenA <= i < avail {
        PeriodStep(i - lenA, lenA);
      }
    }
  }

  /** The in-place copy builds the right sector, whatever the ring holds, exactly when the
      source does not wrap or its second span is no longer than its first. */
  lemma PadCorrectIff(tail: nat, avail: nat)
    requires tail < RING_SIZE && avail < SECTOR_SIZE
    ensures (forall cells: seq<byte> ::
               |cells| == RING_SIZE ==> Pad(cells, tail, avail) == Wanted(cells, tail, avail)) <==>
            CopySafe(tail, avail)
  {
    if CopySafe(tail, avail) {
      forall cells: seq<byte> | |cells| == RING_SIZE ensures Pad(cells, tail, avail) == Wanted(cells, tail, avail) {
        SafePadIsWanted(cells, tail, avail);
      }
    } else {
      var lenA := LenA(tail, avail);
      var bad := Zeros(RING_SIZE)[lenA := 1];
      PeriodStep(lenA, lenA);
      PeriodStep(0, lenA);
      assert Pad(bad, tail, avail)[2 * lenA] == bad[0] == 0;
      assert Wanted(bad, tail, avail)[2 * lenA] == bad[lenA] == 1;
    }
  }
}
