/** The main loop's two operations on the ring and the log file: draining full chunks and
    flushing a partial one (log.c:64-200). */
module LogLoop {
  import opened Bytes
  import opened SectorDevice
  import opened Volumes
  import opened FatTable
  import opened Chains
  import opened LogSpec
  import opened CrashSafety
  import opened LogFiles
  import opened LogOpening
  import opened Configs
  import opened LogTries
  import opened Rings
  import opened FlushPads
  import E = Escapes

  /** Scanning a stream is scanning its parts in turn. */
  lemma {:induction false} ScanConcat(a: seq<byte>, b: seq<byte>, esc: byte, count: nat, seen: nat)
    ensures E.Scan(a + b, esc, count, seen) ==
            (var r := E.Scan(a, esc, count, seen); if r.fired then r else E.Scan(b, esc, count, r.seen))
    decreases |a|
  {
    if a == [] {
      assert a + b == b;
    } else {
      assert (a + b)[1..] == a[1..] + b;
      ScanConcat(a[1..], b, esc, count, 0);
      ScanConcat(a[1..], b, esc, count, seen + 1);
    }
  }

  /** The two scans over the spans of a chunk. */
  method ScanSpans(u: UartRing, state: E.EscapeState, esc: byte, count: byte, tail: nat, lenA: nat, lenB: nat)
    returns (fired: bool)
    requires u.Valid() && tail + lenA <= RING_SIZE && lenB <= RING_SIZE && state.escSeen < E.Needed(count)
    modifies state`escSeen
    ensures E.Scanned(fired, state.escSeen) ==
            E.Scan(u.ring[tail..tail + lenA] + u.ring[..lenB], esc, count, old(state.escSeen))
    ensures !fired ==> state.escSeen < E.Needed(count)
  {
    ScanConcat(u.ring[tail..tail + lenA], u.ring[..lenB], esc, count, state.escSeen);
    fired := state.ScanEscape(u.ring, tail, lenA, esc, count);
    if fired {
      return;
    }
    if lenB > 0 {
      assert u.ring[0..0 + lenB] == u.ring[..lenB];
      fired := state.ScanEscape(u.ring, 0, lenB, esc, count);
    }
  }

  lemma ChunkInRing(u: UartRing, n: nat)
    requires u.Valid() && n <= u.Available() && n <= RING_SIZE
    ensures var a := LenA(u.ringTail, n);
            u.ring[u.ringTail..u.ringTail + a] + u.ring[..n - a] == u.View().Queue()[..n]
  {
    SpansAreQueue(u.View(), n);
    var a := LenA(u.ringTail, n);
    assert u.ring[u.ringTail..u.ringTail + a] == u.ring[..][u.ringTail..u.ringTail + a];
    assert u.ring[..n - a] == u.ring[..][..n - a];
  }

  lemma FrontKept(q: seq<byte>, more: seq<byte>, n: nat)
    requires n <= |q|
    ensures (q + more)[..n] == q[..n] && (q + more)[n..] == q[n..] + more
  {}

  /** Interrupts while a chunk is being handled: its bytes stay at the front. */
  method InterruptsDuring(u: UartRing, ghost chunk: Sector, ghost q: seq<byte>, ghost acc: seq<byte>,
                          ghost sofar: seq<byte>, ghost n: nat)
    returns (ghost gained: seq<byte>)
    requires u.Valid() && u.View().Queue() == q + sofar && u.accepted == acc + sofar && |u.line| + |sofar| <= n
    requires |q| >= SECTOR_SIZE && q[..SECTOR_SIZE] == chunk
    modifies u`ringHead, u`line, u`arrived, u`accepted, u.ring
    ensures u.Valid() && u.View().Queue() == q + gained && u.accepted == acc + gained && |u.line| + |gained| <= n
    ensures u.Available() >= SECTOR_SIZE
    ensures var a := LenA(u.ringTail, SECTOR_SIZE);
            u.ring[u.ringTail..u.ringTail + a] + u.ring[..SECTOR_SIZE - a] == chunk
  {
    hide Ring.Queue;
    var more := u.Interrupts();
    gained := sofar + more;
    Regroup(q, sofar, more);
    Regroup(acc, sofar, more);
    FrontKept(q, gained, SECTOR_SIZE);
    assert |u.View().Queue()| == u.Available();
    ChunkInRing(u, SECTOR_SIZE);
  }

  /** Queued bytes whose first one lies at `tail`, once the lower half of the ring has been
      replaced. */
  function Overlaid(q: seq<byte>, tail: nat, lower: Sector): (r: seq<byte>)
    ensures |r| == |q|
    ensures forall i :: 0 <= i < |q| ==>
              r[i] == if (tail + i) % RING_SIZE < SECTOR_SIZE then lower[(tail + i) % RING_SIZE] else q[i]
  {
    seq(|q|, i requires 0 <= i < |q| =>
      if (tail + i) % RING_SIZE < SECTOR_SIZE then lower[(tail + i) % RING_SIZE] else q[i])
  }

  lemma OverlaidRing(r: Ring, lower: Sector)
    requires r.Valid()
    ensures r.(cells := lower + r.cells[SECTOR_SIZE..]).Queue() == Overlaid(r.Queue(), r.tail, lower)
  {}

  lemma OverlaidFront(q: seq<byte>, tail: nat, lower: Sector, n: nat)
    requires n <= |q|
    ensures Overlaid(q, tail, lower)[..n] == Overlaid(q[..n], tail, lower)
  {}

  /** What an append sends when the queue is q, and the queue it leaves in the ring: both
      unchanged, or with the FAT sector in place of what the lower half held. */
  function QueueAtSend(q: seq<byte>, tail: nat, d: Disk, v: Volume, hi: nat, s: LogState): (r: seq<byte>)
    requires v.Fits(hi) && (Full(s) ==> |FreeOnDisk(d, v, hi)| > 0)
    ensures |r| == |q|
  {
    if Full(s) then Overlaid(q, tail, LastFatSector(d, v, hi, s)) else q
  }

  /** The first half of an iteration of log_process: the spans of the oldest 512 bytes are
      taken and scanned. */
  method ScanChunk(u: UartRing, state: E.EscapeState, esc: byte, count: byte)
    returns (escaped: bool, tail: nat, lenA: nat, lenB: nat, ghost chunk: Sector, ghost before: seq<byte>)
    requires u.Valid() && u.Available() >= SECTOR_SIZE && state.escSeen < E.Needed(count)
    modifies u`ringHead, u`line, u`arrived, u`accepted, u.ring, state`escSeen
    ensures u.Valid() && u.accepted == old(u.accepted) + before && |u.line| + |before| <= |old(u.line)|
    ensures |old(u.View().Queue())| >= SECTOR_SIZE && chunk == old(u.View().Queue())[..SECTOR_SIZE]
    ensures u.View().Queue() == old(u.View().Queue()) + before
    ensures tail == u.ringTail && lenA == LenA(tail, SECTOR_SIZE) && lenB == SECTOR_SIZE - lenA
    ensures E.Scanned(escaped, state.escSeen) == E.Scan(chunk, esc, count, old(state.escSeen))
    ensures !escaped ==> state.escSeen < E.Needed(count)
  {
    hide Ring.Queue, SpanBytes, E.Scan;
    ghost var q, acc, n := u.View().Queue(), u.accepted, |u.line|;
    assert |q| == u.Available();
    chunk := q[..SECTOR_SIZE];
    assert q + [] == q && acc + [] == acc;
    before := InterruptsDuring(u, chunk, q, acc, [], n);
    tail := u.ringTail;
    lenA := LenA(tail, SECTOR_SIZE);
    lenB := SECTOR_SIZE - lenA;
    escaped := ScanSpans(u, state, esc, count, tail, lenA, lenB);
  }

  /** One iteration of log_process, with interrupts between its statements. The chunk is
      what was oldest when the guard saw it; it is scanned first, and only a chunk that
      does not complete an escape sequence is appended and consumed. An append that has to
      extend the file sends FAT bytes for those of the chunk in the lower half of the ring,
      and leaves FAT bytes in the queue behind it. */
  method DrainChunk(u: UartRing, state: E.EscapeState, log: LogFile, card: SdCard, v: Volume, esc: byte, count: byte,
                    ghost hi: nat)
    returns (escaped: bool, ghost chunk: Sector, ghost before: seq<byte>, ghost after: seq<byte>)
    requires u.Valid() && u.Available() >= SECTOR_SIZE && state.escSeen < E.Needed(count)
    requires StateOk(log.View()) && v.Fits(hi) && (Full(log.View()) ==> |FreeOnDisk(card.disk, v, hi)| > 0)
    modifies u`ringHead, u`ringTail, u`line, u`arrived, u`accepted, u.ring, state`escSeen, log, card
    ensures u.Valid() && StateOk(log.View()) && u.accepted == old(u.accepted) + (before + after)
    ensures |u.line| + |before| + |after| <= |old(u.line)|
    ensures |old(u.View().Queue())| >= SECTOR_SIZE && chunk == old(u.View().Queue())[..SECTOR_SIZE]
    ensures E.Scanned(escaped, state.escSeen) == E.Scan(chunk, esc, count, old(state.escSeen))
    ensures !escaped ==> state.escSeen < E.Needed(count)
    ensures escaped ==>
              && after == [] && u.View().Queue() == old(u.View().Queue()) + before
              && log.View() == old(log.View()) && card.disk == old(card.disk) && card.failures == old(card.failures)
    ensures old(card.failures) <= card.failures <= old(card.failures) + 1
    ensures !escaped ==> u.Available() + SECTOR_SIZE == |old(u.View().Queue())| + |before| + |after|
    ensures !escaped && card.failures == old(card.failures) ==>
              && (card.disk, log.View()) ==
                 Step(old(card.disk), v, hi, old(log.View()),
                      Append(QueueAtSend(chunk, old(u.ringTail), old(card.disk), v, hi, old(log.View()))))
              && u.View().Queue() ==
                 QueueAtSend(old(u.View().Queue()) + before, old(u.ringTail), old(card.disk), v, hi,
                             old(log.View()))[SECTOR_SIZE..] + after
    ensures !escaped && !old(Full(log.View())) ==>
              && u.View().Queue() == (old(u.View().Queue()) + before)[SECTOR_SIZE..] + after
              && TryStep(old(card.disk), v, hi, old(log.View()),
                         Attempt(Append(chunk), card.failures == old(card.failures)), card.disk, log.View())
    ensures !escaped && old(Full(log.View())) && card.failures != old(card.failures) ==>
              exists data :: AppendFailed(old(card.disk), card.disk, v, hi, old(log.View()), log.View(), data)
  {
    hide Ring.Queue, SpanBytes, E.Scan, Volume.Fits, Ring.Consume, QueueAtSend, FreeOnDisk, Step, StateOk, Put, TryStep,
         AppendFailed;
    ghost var q, acc, n := u.View().Queue(), u.accepted, |u.line|;
    after := [];
    var tail, lenA, lenB;
    escaped, tail, lenA, lenB, chunk, before := ScanChunk(u, state, esc, count);
    assert |q| == old(u.Available());
    if escaped {
      assert before + [] == before;
      return;
    }
    before := InterruptsDuring(u, chunk, q, acc, before, n);
    ghost var atSend := q + before;
    FrontKept(q, before, SECTOR_SIZE);
    WriteChunk(u, log, card, v, tail, lenA, lenB, chunk, atSend, hi);
    after := ConsumeChunk(u);
    Regroup(acc, before, after);
  }

  /** The chunk leaves the ring; interrupts may come first. */
  method ConsumeChunk(u: UartRing) returns (ghost after: seq<byte>)
    requires u.Valid() && |u.View().Queue()| >= SECTOR_SIZE
    modifies u`ringHead, u`ringTail, u`line, u`arrived, u`accepted, u.ring
    ensures u.Valid() && u.accepted == old(u.accepted) + after && |u.line| + |after| <= |old(u.line)|
    ensures u.View().Queue() == old(u.View().Queue())[SECTOR_SIZE..] + after
    ensures u.Available() + SECTOR_SIZE == |old(u.View().Queue())| + |after|
  {
    hide Ring.Queue, Ring.Consume;
    ghost var left := u.View().Queue();
    after := u.Interrupts();
    FrontKept(left, after, SECTOR_SIZE);
    assert |u.View().Queue()| == u.Available();
    u.Consume(SECTOR_SIZE);
    assert |u.View().Queue()| == u.Available();
  }

  method WriteChunk(u: UartRing, log: LogFile, card: SdCard, v: Volume, tail: nat, lenA: nat, lenB: nat,
                    ghost chunk: Sector, ghost q: seq<byte>, ghost hi: nat)
    requires u.Valid() && tail == u.ringTail && lenA == LenA(tail, SECTOR_SIZE) && lenB == SECTOR_SIZE - lenA
    requires u.View().Queue() == q && |q| >= SECTOR_SIZE && q[..SECTOR_SIZE] == chunk
    requires StateOk(log.View()) && v.Fits(hi) && (Full(log.View()) ==> |FreeOnDisk(card.disk, v, hi)| > 0)
    modifies u.ring, log, card
    ensures u.Valid() && |u.View().Queue()| == |q| && StateOk(log.View())
    ensures old(card.failures) <= card.failures <= old(card.failures) + 1
    ensures card.failures == old(card.failures) ==>
              && (card.disk, log.View()) ==
                 Step(old(card.disk), v, hi, old(log.View()),
                      Append(QueueAtSend(chunk, tail, old(card.disk), v, hi, old(log.View()))))
              && u.View().Queue() == QueueAtSend(q, tail, old(card.disk), v, hi, old(log.View()))
    ensures !old(Full(log.View())) ==>
              && u.View().Queue() == q
              && TryStep(old(card.disk), v, hi, old(log.View()),
                         Attempt(Append(chunk), card.failures == old(card.failures)), card.disk, log.View())
    ensures old(Full(log.View())) && card.failures != old(card.failures) ==>
              exists data :: AppendFailed(old(card.disk), card.disk, v, hi, old(log.View()), log.View(), data)
  {
    hide Ring.Queue, Volume.Fits, Overlaid, LastFatSector, SpanBytes, FreeOnDisk, Extend, Step, DuringExtension;
    ghost var r, d, s := u.View(), card.disk, log.View();
    SpansAreQueue(r, SECTOR_SIZE);
    assert Spans(u.ring[..], tail, lenA, 0, lenB) ==
           SpanBytes(u.ring[..], tail, SECTOR_SIZE) by { SpansBytes(u.ring[..], tail); }
    var st := log.AppendSector(card, u.ring, v, tail, lenA, 0, lenB, hi);
    SpansBytes(u.ring[..], tail);
    SpansAreQueue(u.View(), SECTOR_SIZE);
    if Full(s) {
      OverlaidRing(r, LastFatSector(d, v, hi, s));
      OverlaidFront(q, tail, LastFatSector(d, v, hi, s), SECTOR_SIZE);
      SameLength(r, u.View());
      if !st.Ok? {
        FailedStateOk(d, card.disk, v, hi, s, log.View(), Spans(u.ring[..], tail, lenA, 0, lenB));
      } else {
        StepStateOk(d, v, hi, s, Append(Spans(u.ring[..], tail, lenA, 0, lenB)));
      }
    } else if st.Ok? {
      StepStateOk(d, v, hi, s, Append(chunk));
    } else {
      FailedPut(d, v, hi, s, chunk);
    }
  }

  lemma SpansBytes(cells: seq<byte>, tail: nat)
    requires |cells| == RING_SIZE && tail < RING_SIZE
    ensures var a := LenA(tail, SECTOR_SIZE);
            Spans(cells, tail, a, 0, SECTOR_SIZE - a) == SpanBytes(cells, tail, SECTOR_SIZE)
  {}

  lemma SameLength(a: Ring, b: Ring)
    requires a.Valid() && b.Valid() && a.head == b.head && a.tail == b.tail
    ensures |a.Queue()| == |b.Queue()|
  {}

  lemma FailedPut(d: Disk, v: Volume, hi: nat, s: LogState, data: Sector)
    requires StateOk(s) && v.Fits(hi) && !Full(s)
    ensures Put(d, s, data) == Step(d, v, hi, s, Append(data))
  {}

  lemma FailedStateOk(d: Disk, e: Disk, v: Volume, hi: nat, s: LogState, t: LogState, data: Sector)
    requires StateOk(s) && v.Fits(hi) && Full(s) && |FreeOnDisk(d, v, hi)| > 0 && AppendFailed(d, e, v, hi, s, t, data)
    ensures StateOk(t)
  {
    hide FreeOnDisk, WithCluster, ClusToLba, Volume.Fits, DuringExtension;
  }

  // ---- draining -----------------------------------------------------------------------------------

  /** The sectors one after another. */
  function Concat(cs: seq<Sector>): seq<byte> {
    if cs == [] then [] else Concat(cs[..|cs| - 1]) + cs[|cs| - 1]
  }

  function Appends(cs: seq<Sector>): (ops: seq<FileOp>)
    ensures |ops| == |cs|
    ensures forall i :: 0 <= i < |cs| ==> ops[i] == Append(cs[i])
  {
    if cs == [] then [] else Appends(cs[..|cs| - 1]) + [Append(cs[|cs| - 1])]
  }

  lemma ConcatSnoc(cs: seq<Sector>, c: Sector)
    ensures Concat(cs + [c]) == Concat(cs) + c && Appends(cs + [c]) == Appends(cs) + [Append(c)]
  {}

  function Chunks(tries: seq<Attempt>): (cs: seq<Sector>)
    requires forall i :: 0 <= i < |tries| ==> tries[i].op.Append?
    ensures |cs| == |tries| && forall i :: 0 <= i < |cs| ==> tries[i].op == Append(cs[i])
  {
    seq(|tries|, i requires 0 <= i < |tries| => tries[i].op.data)
  }

  lemma QueueLength(u: UartRing)
    requires u.Valid()
    ensures |u.View().Queue()| == u.Available()
  {}

  /** log_process, followed up to the first append that has to extend the file (DrainChunk
      says what that one does; its chunk has been scanned by then). The chunks handed to the card and what is still queued are
      exactly what was queued plus what the interrupts added meanwhile, in order. Each chunk
      was tried once; as many attempts missed as the card reported errors. The loop ends with
      less than a chunk queued, or at the first chunk that completes an escape sequence,
      which is still in the queue. */
  method LogProcess(u: UartRing, state: E.EscapeState, log: LogFile, card: SdCard, v: Volume, esc: byte, count: byte,
                    ghost hi: nat)
    returns (escaped: bool, full: bool, ghost tries: seq<Attempt>, ghost gained: seq<byte>)
    requires u.Valid() && state.escSeen < E.Needed(count) && StateOk(log.View()) && v.Fits(hi)
    modifies u`ringHead, u`ringTail, u`line, u`arrived, u`accepted, u.ring, state`escSeen, log, card
    ensures u.Valid() && StateOk(log.View()) && u.accepted == old(u.accepted) + gained
    ensures forall i :: 0 <= i < |tries| ==> tries[i].op.Append?
    ensures old(u.View().Queue()) + gained == Concat(Chunks(tries)) + u.View().Queue()
    ensures Tries(old(card.disk), v, hi, old(log.View()), tries, card.disk, log.View())
    ensures card.failures == old(card.failures) + Misses(tries)
    ensures if escaped
            then u.Available() >= SECTOR_SIZE &&
                 E.Scan(Concat(Chunks(tries)) + u.View().Queue()[..SECTOR_SIZE], esc, count, old(state.escSeen)).fired
            else if full
            then u.Available() >= SECTOR_SIZE && Full(log.View()) &&
                 E.Scan(Concat(Chunks(tries)) + u.View().Queue()[..SECTOR_SIZE], esc, count, old(state.escSeen)) ==
                 E.Scanned(false, state.escSeen)
            else u.Available() < SECTOR_SIZE &&
                 E.Scan(Concat(Chunks(tries)), esc, count, old(state.escSeen)) == E.Scanned(false, state.escSeen)
    ensures !escaped ==> state.escSeen < E.Needed(count)
    ensures E.Scan(Concat(Chunks(tries)), esc, count, old(state.escSeen)).fired == false
  {
    hide Ring.Queue, E.Scan, Volume.Fits, Tries, TryStep, Misses, Concat, Step, FreeOnDisk, StateOk, Overlaid,
         Ring.Avail, UartRing.Available;
    ghost var d, s0, q := card.disk, log.View(), u.View().Queue();
    tries, gained, escaped, full := [], [], false, false;
    ghost var chunks := [];
    Nothing(q, d, v, hi, s0, esc, count, state.escSeen);
    while u.Available() >= SECTOR_SIZE
      invariant u.Valid() && u.accepted == old(u.accepted) + gained && !escaped && !full
      invariant |chunks| == |tries| && forall i :: 0 <= i < |tries| ==> tries[i].op == Append(chunks[i])
      invariant q + gained == Concat(chunks) + u.View().Queue()
      invariant StateOk(log.View())
      invariant Tries(d, v, hi, s0, tries, card.disk, log.View()) && card.failures == old(card.failures) + Misses(tries)
      invariant E.Scan(Concat(chunks), esc, count, old(state.escSeen)) == E.Scanned(false, state.escSeen)
      invariant state.escSeen < E.Needed(count)
      decreases u.Available() + |u.line|
    {
      if log.curLba >= log.endLba {
        escaped, gained := ScanBlocked(u, state, esc, count, q, gained, old(u.accepted), Concat(chunks),
            old(state.escSeen));
        full := !escaped;
        break;
      }
      ghost var before, t, e, f := u.View().Queue(), log.View(), card.disk, card.failures;
      QueueLength(u);
      ghost var chunk, more, after;
      escaped, chunk, more, after := DrainChunk(u, state, log, card, v, esc, count, hi);
      QueueLength(u);
      ScanConcat(Concat(chunks), chunk, esc, count, old(state.escSeen));
      Shift(q, gained, more, after, Concat(chunks), before, chunk);
      gained := gained + (more + after);
      if escaped {
        assert u.View().Queue()[..SECTOR_SIZE] == chunk;
        break;
      }
      ghost var a := Attempt(Append(chunk), card.failures == f);
      ConcatSnoc(chunks, chunk);
      TriesSnoc(d, v, hi, s0, tries, e, t, a, card.disk, log.View());
      MissesSnoc(tries, a);
      tries, chunks := tries + [a], chunks + [chunk];
    }
    assert Chunks(tries) == chunks;
  }

  /** The scan of a chunk that can only be appended to a longer file. */
  method ScanBlocked(u: UartRing, state: E.EscapeState, esc: byte, count: byte, ghost q: seq<byte>,
                     ghost gained: seq<byte>, ghost acc: seq<byte>, ghost done: seq<byte>, ghost seen: nat)
    returns (escaped: bool, ghost gained': seq<byte>)
    requires u.Valid() && u.Available() >= SECTOR_SIZE && state.escSeen < E.Needed(count)
    requires u.accepted == acc + gained && q + gained == done + u.View().Queue()
    requires E.Scan(done, esc, count, seen) == E.Scanned(false, state.escSeen)
    modifies u`ringHead, u`line, u`arrived, u`accepted, u.ring, state`escSeen
    ensures u.Valid() && u.Available() >= SECTOR_SIZE && u.accepted == acc + gained'
    ensures q + gained' == done + u.View().Queue()
    ensures E.Scan(done + u.View().Queue()[..SECTOR_SIZE], esc, count, seen) == E.Scanned(escaped, state.escSeen)
    ensures !escaped ==> state.escSeen < E.Needed(count)
  {
    hide Ring.Queue, E.Scan, Ring.Avail, UartRing.Available;
    ghost var chunk, more, before := [], [], u.View().Queue();
    var tail, lenA, lenB;
    escaped, tail, lenA, lenB, chunk, more := ScanChunk(u, state, esc, count);
    QueueLength(u);
    ScanConcat(done, chunk, esc, count, seen);
    FrontKept(before, more, SECTOR_SIZE);
    Regroup(acc, gained, more);
    Regroup(q, gained, more);
    Regroup(done, before, more);
    gained' := gained + more;
  }

  lemma Nothing(q: seq<byte>, d: Disk, v: Volume, hi: nat, s: LogState, esc: byte, count: nat,
                seen: nat)
    ensures Concat([]) == [] && q + [] == [] + q
    ensures Tries(d, v, hi, s, [], d, s) && Misses([]) == 0
    ensures E.Scan([], esc, count, seen) == E.Scanned(false, seen)
  {}

  lemma Shift(q: seq<byte>, g: seq<byte>, more: seq<byte>, after: seq<byte>, done: seq<byte>,
              before: seq<byte>, chunk: seq<byte>)
    requires q + g == done + before && chunk <= before
    ensures after == [] ==> q + (g + (more + after)) == done + (before + more)
    ensures q + (g + (more + after)) == done + chunk + ((before + more)[|chunk|..] + after)
    ensures (before + more)[..|chunk|] == chunk
  {
    assert before == chunk + before[|chunk|..];
    assert q + (g + (more + after)) == (q + g) + (more + after);
    assert before + more == chunk + (before + more)[|chunk|..];
  }

  // ---- the idle flush ---------------------------------------------------------------------------------

  /** eeprom_update_byte: the cell is written only if it differs. */
  method UpdateByte(eeprom: array<byte>, addr: nat, val: byte)
    requires addr < eeprom.Length
    modifies eeprom
    ensures eeprom[..] == old(eeprom[..])[addr := val]
  {
    if eeprom[addr] != val {
      eeprom[addr] := val;
    }
  }

  /** The recovery record, byte by byte. */
  method RecordBytes(eeprom: array<byte>, written: nat)
    requires eeprom.Length >= REC_HI + 2 && written < U32
    modifies eeprom
    ensures eeprom[..] == Splice(old(eeprom[..]), REC_LO, Bytes32(written)) && Recorded(eeprom[..]) == written
  {
    RecordApart(eeprom[..], written);
    RecordHalves(written);
    var lo, hi := written % U16, written / U16;
    UpdateByte(eeprom, REC_LO, lo % 0x100);
    UpdateByte(eeprom, REC_LO + 1, lo / 0x100);
    UpdateByte(eeprom, REC_HI, hi % 0x100);
    UpdateByte(eeprom, REC_HI + 1, hi / 0x100);
  }

  lemma RecordHalves(written: nat)
    requires written < U32
    ensures var lo, hi := written % U16, written / U16;
            Bytes32(written) == [lo % 0x100, lo / 0x100, hi % 0x100, hi / 0x100]
  {
    var lo, hi := written % U16, written / U16;
    assert written / 0x1_0000 % 0x100 == hi % 0x100 && written / 0x100_0000 == hi / 0x100;
    assert written % 0x100 == lo % 0x100 && written / 0x100 % 0x100 == lo / 0x100;
  }

  /** log_flush, with interrupts held off: the queue is emptied into one padded sector (if it
      holds anything), the directory entry and the recovery record are brought up to date.
      When the copy is safe, the pad is the queued bytes followed by zeros. It is what the
      card gets, unless the append has to extend the file: then the card gets the FAT sector
      that the extension stored last. */
  method LogFlush(u: UartRing, log: LogFile, card: SdCard, v: Volume, eeprom: array<byte>, ghost hi: nat)
    returns (ghost pad: Sector, ghost tries: seq<Attempt>)
    requires u.Valid() && u.Available() < SECTOR_SIZE && eeprom.Length >= REC_HI + 2 && eeprom != u.ring
    requires StateOk(log.View()) && v.Fits(hi)
    requires u.Available() > 0 && Full(log.View()) ==> |FreeOnDisk(card.disk, v, hi)| > 0
    modifies u`ringTail, u`flushes, u.ring, log, card, eeprom
    ensures u.Valid() && StateOk(log.View()) && u.View().Queue() == []
    ensures u.flushes == old(u.flushes) + [(old(u.ringTail), old(u.Available()))]
    ensures pad == Pad(old(u.ring[..]), old(u.ringTail), old(u.Available()))
    ensures CopySafe(old(u.ringTail), old(u.Available())) ==>
              pad == old(u.View().Queue()) + Zeros(SECTOR_SIZE - old(u.Available()))
    ensures card.failures == old(card.failures) + Misses(tries)
    ensures Ops(tries) == FlushOps(old(u.Available()) > 0,
                                   PadAtSend(old(u.Available()) > 0, pad, old(card.disk), v, hi, old(log.View())))
    ensures !(old(u.Available()) > 0 && old(Full(log.View()))) ==>
              Tries(old(card.disk), v, hi, old(log.View()), tries, card.disk, log.View())
    ensures card.failures == old(card.failures) ==>
              RunsTo(old(card.disk), v, hi, old(log.View()), Ops(tries), card.disk, log.View())
    ensures log.bytesWritten < U32 && eeprom[..] == Splice(old(eeprom[..]), REC_LO, Bytes32(log.bytesWritten))
    ensures Recorded(eeprom[..]) == log.bytesWritten
  {
    hide Ring.Queue, Pad, CopySafe, Splice, Bytes32, Volume.Fits, RunsTo, Recorded, FreeOnDisk, LastFatSector, StateOk,
         Tries, Misses;
    ghost var d, s, f := card.disk, log.View(), card.failures;
    RunsToNothing(d, v, hi, s);
    TriesNothing(d, v, hi, s);
    var avail := u.Available();
    u.flushes := u.flushes + [(u.ringTail, avail)];
    SafePad(u.View());
    pad, tries := Pad(u.ring[..], u.ringTail, avail), [];
    ghost var sent := PadAtSend(avail > 0, pad, d, v, hi, s);
    assert Ops(tries) == [];
    if avail > 0 {
      tries := FlushAppend(u, log, card, v, avail, pad, hi);
    }
    Drained(u.View());
    tries := UpdateEntry(u, log, card, v, hi, d, s, f, avail > 0 && Full(s), tries, Ops(tries));
    assert Ops(tries) == FlushOps(avail > 0, sent);
    Drained(u.View());
    assert log.bytesWritten < U32 by { CountFits(log.View()); }
    RecordBytes(eeprom, log.bytesWritten);
    Drained(u.View());
  }

  /** The directory entry, after what the flush has tried so far. */
  method UpdateEntry(u: UartRing, log: LogFile, card: SdCard, v: Volume, ghost hi: nat, ghost d: Disk,
                     ghost s: LogState,
                     ghost f: nat, ghost extended: bool, ghost tries: seq<Attempt>, ghost ops: seq<FileOp>)
    returns (ghost tries': seq<Attempt>)
    requires u.Valid() && StateOk(log.View()) && v.Fits(hi)
    requires Ops(tries) == ops && card.failures == f + Misses(tries)
    requires card.failures == f ==> RunsTo(d, v, hi, s, ops, card.disk, log.View())
    requires !extended ==> Tries(d, v, hi, s, tries, card.disk, log.View())
    modifies u.ring, card
    ensures u.Valid() && StateOk(log.View())
    ensures Ops(tries') == ops + [UpdateSize] && card.failures == f + Misses(tries')
    ensures card.failures == f ==> RunsTo(d, v, hi, s, Ops(tries'), card.disk, log.View())
    ensures !extended ==> Tries(d, v, hi, s, tries', card.disk, log.View())
  {
    hide Ring.Queue, Volume.Fits, RunsTo, WithSize, Step, StateOk, Tries, TryStep, Misses;
    ghost var e, t := card.disk, log.View();
    var st := log.Flush(card, u.ring, v, hi);
    ghost var a := Attempt(UpdateSize, st.Ok?);
    EnabledHere(e, v, hi, t, UpdateSize);
    if card.failures == f {
      RunsToSnoc(d, v, hi, s, ops, e, t, UpdateSize);
    }
    FlushTry(e, v, hi, t, a, card.disk);
    if !extended {
      TriesSnoc(d, v, hi, s, tries, e, t, a, card.disk, log.View());
    }
    MissesSnoc(tries, a);
    tries' := tries + [a];
    assert Ops(tries') == ops + [UpdateSize];
  }

  lemma TriesNothing(d: Disk, v: Volume, hi: nat, s: LogState)
    ensures Tries(d, v, hi, s, [], d, s) && Misses([]) == 0
  {}

  lemma FlushTry(d: Disk, v: Volume, hi: nat, s: LogState, a: Attempt, e: Disk)
    requires a.op == UpdateSize && StateOk(s) && v.Fits(hi)
    requires if a.done then (e, s) == Step(d, v, hi, s, UpdateSize)
             else e == d || e == Step(d, v, hi, s, UpdateSize).0
    ensures TryStep(d, v, hi, s, a, e, s)
  {
    hide Step;
  }

  lemma CountFits(s: LogState)
    requires StateOk(s)
    ensures s.bytesWritten < U32
  {}

  function FlushOps(any: bool, sent: Sector): seq<FileOp> {
    if any then [Append(sent), UpdateSize] else [UpdateSize]
  }

  function PadAtSend(any: bool, pad: Sector, d: Disk, v: Volume, hi: nat, s: LogState): Sector
    requires v.Fits(hi) && (any && Full(s) ==> |FreeOnDisk(d, v, hi)| > 0)
  {
    if any && Full(s) then LastFatSector(d, v, hi, s) else pad
  }

  /** The pad, its append and the end of the queue. */
  method FlushAppend(u: UartRing, log: LogFile, card: SdCard, v: Volume, avail: nat, ghost pad: Sector, ghost hi: nat)
    returns (ghost tries: seq<Attempt>)
    requires u.Valid() && avail == u.Available() < SECTOR_SIZE && pad == Pad(u.ring[..], u.ringTail, avail)
    requires StateOk(log.View()) && v.Fits(hi) && (Full(log.View()) ==> |FreeOnDisk(card.disk, v, hi)| > 0)
    modifies u`ringTail, u.ring, log, card
    ensures u.Valid() && u.Available() == 0 && StateOk(log.View())
    ensures Ops(tries) == [Append(PadAtSend(true, pad, old(card.disk), v, hi, old(log.View())))]
    ensures card.failures == old(card.failures) + Misses(tries)
    ensures card.failures == old(card.failures) ==>
              RunsTo(old(card.disk), v, hi, old(log.View()), Ops(tries), card.disk, log.View())
    ensures !old(Full(log.View())) ==>
              Tries(old(card.disk), v, hi, old(log.View()), tries, card.disk, log.View())
  {
    hide Volume.Fits, LastFatSector, FreeOnDisk, StateOk, Tries, TryStep, Misses, RunsTo, Step, Pad, Ring.Queue;
    hide Ring.Consume, Ring.Avail, UartRing.Available;
    ghost var d, s, f := card.disk, log.View(), card.failures;
    ghost var sent := PadAtSend(true, pad, d, v, hi, s);
    BuildPad(u.ring, u.ringTail, avail);
    AppendPad(u, log, card, v, pad, hi);
    ghost var a := Attempt(Append(sent), card.failures == f);
    RunsToNothing(d, v, hi, s);
    TriesNothing(d, v, hi, s);
    EnabledHere(d, v, hi, s, Append(sent));
    if a.done {
      RunsToSnoc(d, v, hi, s, [], d, s, Append(sent));
    }
    if !Full(s) {
      TriesSnoc(d, v, hi, s, [], d, s, a, card.disk, log.View());
    }
    MissesSnoc([], a);
    tries := [] + [a];
    assert Ops(tries) == [] + [Append(sent)];
    u.Consume(avail);
  }

  /** The append itself: the pad lies in the scratch half. */
  method AppendPad(u: UartRing, log: LogFile, card: SdCard, v: Volume, ghost pad: Sector, ghost hi: nat)
    requires u.Valid() && u.ring[..SECTOR_SIZE] == pad
    requires StateOk(log.View()) && v.Fits(hi) && (Full(log.View()) ==> |FreeOnDisk(card.disk, v, hi)| > 0)
    modifies u.ring, log, card
    ensures u.Valid() && StateOk(log.View())
    ensures old(card.failures) <= card.failures <= old(card.failures) + 1
    ensures card.failures == old(card.failures) ==>
              (card.disk, log.View()) ==
              Step(old(card.disk), v, hi, old(log.View()),
                   Append(PadAtSend(true, pad, old(card.disk), v, hi, old(log.View()))))
    ensures !old(Full(log.View())) ==>
              TryStep(old(card.disk), v, hi, old(log.View()),
                      Attempt(Append(pad), card.failures == old(card.failures)), card.disk, log.View())
  {
    hide Volume.Fits, LastFatSector, FreeOnDisk, Extend, Step, DuringExtension;
    ghost var d, s := card.disk, log.View();
    var st := log.AppendSector(card, u.ring, v, 0, SECTOR_SIZE, 0, 0, hi);
    assert Spans(u.ring[..], 0, SECTOR_SIZE, 0, 0) == u.ring[..SECTOR_SIZE];
    if st.Ok? {
      StepStateOk(d, v, hi, s, Append(Spans(u.ring[..], 0, SECTOR_SIZE, 0, 0)));
    } else if Full(s) {
      FailedStateOk(d, card.disk, v, hi, s, log.View(), Spans(u.ring[..], 0, SECTOR_SIZE, 0, 0));
    } else {
      FailedPut(d, v, hi, s, pad);
    }
  }

  lemma EnabledHere(d: Disk, v: Volume, hi: nat, s: LogState, op: FileOp)
    requires v.Fits(hi) && StateOk(s) && (op.Append? && Full(s) ==> |FreeOnDisk(d, v, hi)| > 0)
    ensures Enabled(d, v, hi, s, op) && StateOk(Step(d, v, hi, s, op).1)
  {
    hide FreeOnDisk, Step;
    StepStateOk(d, v, hi, s, op);
  }

  lemma SafePad(r: Ring)
    requires r.Valid() && r.Avail() < SECTOR_SIZE
    ensures CopySafe(r.tail, r.Avail()) ==>
              Pad(r.cells, r.tail, r.Avail()) == r.Queue() + Zeros(SECTOR_SIZE - r.Avail())
  {
    hide Pad;
    if CopySafe(r.tail, r.Avail()) {
      SafePadIsWanted(r.cells, r.tail, r.Avail());
      SpansAreQueue(r, r.Avail());
      assert r.Queue()[..r.Avail()] == r.Queue();
    }
  }

  lemma Drained(r: Ring)
    requires r.Valid() && r.Avail() == 0
    ensures r.Queue() == []
  {}

  // ---- the scratch half of the ring ---------------------------------------------------------------------

  /** FAT access overwrites the lower half of the ring before an extending append sends
      its spans. They arrive unharmed, whatever ring and FAT sector hold, exactly when
      neither of them reaches into that half. */
  lemma ExtensionSparesSpansIff(offA: nat, lenA: nat, offB: nat, lenB: nat)
    requires lenA + lenB == SECTOR_SIZE && offA + lenA <= RING_SIZE && offB + lenB <= RING_SIZE
    ensures (forall cells: seq<byte>, fat: Sector :: |cells| == RING_SIZE ==>
               Spans(fat + cells[SECTOR_SIZE..], offA, lenA, offB, lenB) == Spans(cells, offA, lenA, offB, lenB)) <==>
            (lenA == 0 || offA >= SECTOR_SIZE) && (lenB == 0 || offB >= SECTOR_SIZE)
  {
    var cells := Zeros(RING_SIZE);
    if lenA > 0 && offA < SECTOR_SIZE {
      var fat: Sector := Zeros(SECTOR_SIZE)[offA := 1];
      assert Spans(fat + cells[SECTOR_SIZE..], offA, lenA, offB, lenB)[0] == 1;
      assert Spans(cells, offA, lenA, offB, lenB)[0] == 0;
    } else if lenB > 0 && offB < SECTOR_SIZE {
      var fat: Sector := Zeros(SECTOR_SIZE)[offB := 1];
      assert Spans(fat + cells[SECTOR_SIZE..], offA, lenA, offB, lenB)[lenA] == 1;
      assert Spans(cells, offA, lenA, offB, lenB)[lenA] == 0;
    } else {
      forall cells: seq<byte>, fat: Sector | |cells| == RING_SIZE
        ensures Spans(fat + cells[SECTOR_SIZE..], offA, lenA, offB, lenB) == Spans(cells, offA, lenA, offB, lenB)
      {
        var after := fat + cells[SECTOR_SIZE..];
        assert lenA > 0 ==> after[offA..offA + lenA] == cells[offA..offA + lenA];
        assert lenB > 0 ==> after[offB..offB + lenB] == cells[offB..offB + lenB];
      }
    }
  }

  /** What the FAT sector in the scratch half holds for the cluster just added: the end mark. */
  lemma LastFatEntry(d: Disk, v: Volume, hi: nat, s: LogState)
    requires v.Fits(hi) && |FreeOnDisk(d, v, hi)| > 0
    ensures EntryIn(LastFatSector(d, v, hi, s), FatOffset(FreeOnDisk(d, v, hi)[0])) == EOC
  {
    hide FatView, FreeList, ZeroRange, WriteEntry, EntryIn, ClusToLba;
    FreeListSound(FatView(d, v, 0), 2, hi);
    var c, f := FreeOnDisk(d, v, hi)[0], v.numFats - 1;
    var d1 := WriteEntry(d, v, s.lastClus, c);
    var d2 := WriteEntry(d1, v, c, EOC);
    WholeStoreEntry(d1, v, c, f);
    NoWrap(v, hi, c);
    var lba := ClusToLba(v, c);
    assert (lba + v.secPerClus) % U32 == lba + v.secPerClus;
    ZeroRangeGet(d2, lba, lba + v.secPerClus);
    CopySectorInFat(v, f, c);
  }

  lemma WholeStoreEntry(d: Disk, v: Volume, c: nat, f: nat)
    requires v.Layout() && c < v.EntryCount() && f < v.numFats
    ensures EntryAt(WriteEntry(d, v, c, EOC), v, f, c) == EOC
  {
    hide EntryAt, WriteCopies;
    WriteCopiesEntry(d, v, c, EOC, v.numFats, f, c);
  }

  /** Byte by byte what an append of the chunk at `tail` sends when it has to extend the file.
      The chunk arrives unharmed exactly when its bytes in the lower half happen to be those
      of that FAT sector. */
  lemma ExtensionSends(cells: seq<byte>, tail: nat, d: Disk, v: Volume, hi: nat, s: LogState)
    requires |cells| == RING_SIZE && tail < RING_SIZE && v.Fits(hi) && Full(s) && |FreeOnDisk(d, v, hi)| > 0
    ensures var chunk, fat := SpanBytes(cells, tail, SECTOR_SIZE), LastFatSector(d, v, hi, s);
            var sent := SpanBytes(RingAtSend(cells, d, v, hi, s), tail, SECTOR_SIZE);
            && sent == Overlaid(chunk, tail, fat)
            && (sent == chunk <==>
                  forall i :: 0 <= i < SECTOR_SIZE && (tail + i) % RING_SIZE < SECTOR_SIZE ==>
                    chunk[i] == fat[(tail + i) % RING_SIZE])
  {
    hide LastFatSector, FreeOnDisk, Volume.Fits, SpanBytes;
    var chunk, fat := SpanBytes(cells, tail, SECTOR_SIZE), LastFatSector(d, v, hi, s);
    var sent := SpanBytes(RingAtSend(cells, d, v, hi, s), tail, SECTOR_SIZE);
    forall i | 0 <= i < SECTOR_SIZE ensures sent[i] == Overlaid(chunk, tail, fat)[i] {
      SpanByteAt(cells, tail, SECTOR_SIZE, i);
      SpanByteAt(RingAtSend(cells, d, v, hi, s), tail, SECTOR_SIZE, i);
    }
  }
}
