/** The main loop of the program, pass by pass: draining, the idle flush, the escape to command
    mode (main.c:205-218), and what comes of it for the file and its reader. */
module MainLoops {
  import opened Bytes
  import opened SectorDevice
  import opened Volumes
  import opened LogSpec
  import opened LogRefinement
  import opened LogFiles
  import opened Configs
  import opened LogTries
  import opened LogLoop
  import opened Rings
  import opened FlushPads
  import opened FatTable
  import opened Delivery
  import E = Escapes

  // ---- what is handed to the card ---------------------------------------------------------------

  /** ns says how many bytes of each attempted sector are meant. */
  ghost predicate Meaning(tries: seq<Attempt>, ns: seq<nat>) {
    |ns| == |tries| && forall i :: 0 <= i < |ns| ==> ns[i] <= SECTOR_SIZE
  }

  /** The bytes handed to the card, stored or not. */
  function Handed(tries: seq<Attempt>, ns: seq<nat>): seq<byte>
    requires Meaning(tries, ns)
    decreases |tries|
  {
    if tries == [] then []
    else
      var n := |tries| - 1;
      Handed(tries[..n], ns[..n]) + if tries[n].op.Append? then tries[n].op.data[..ns[n]] else []
  }

  lemma HandedSnoc(tries: seq<Attempt>, ns: seq<nat>, a: Attempt, n: nat)
    requires Meaning(tries, ns) && n <= SECTOR_SIZE
    ensures Meaning(tries + [a], ns + [n])
    ensures Handed(tries + [a], ns + [n]) == Handed(tries, ns) + if a.op.Append? then a.op.data[..n] else []
  {
    assert (tries + [a])[..|tries|] == tries && (ns + [n])[..|ns|] == ns;
  }

  function Fulls(n: nat): (ns: seq<nat>)
    ensures |ns| == n && forall i :: 0 <= i < n ==> ns[i] == SECTOR_SIZE
  {
    if n == 0 then [] else Fulls(n - 1) + [SECTOR_SIZE]
  }

  lemma ChunksSnoc(tries: seq<Attempt>)
    requires tries != [] && forall i :: 0 <= i < |tries| ==> tries[i].op.Append?
    ensures var n := |tries| - 1;
            Concat(Chunks(tries)) == Concat(Chunks(tries[..n])) + tries[n].op.data
  {
    var n := |tries| - 1;
    assert Chunks(tries) == Chunks(tries[..n]) + [tries[n].op.data];
    ConcatSnoc(Chunks(tries[..n]), tries[n].op.data);
  }

  lemma NoChunks()
    ensures Concat(Chunks([])) == []
  {}

  lemma {:induction false} HandedChunks(tries: seq<Attempt>, ns: seq<nat>, more: seq<Attempt>)
    requires Meaning(tries, ns) && forall i :: 0 <= i < |more| ==> more[i].op.Append?
    ensures Meaning(tries + more, ns + Fulls(|more|))
    ensures Handed(tries + more, ns + Fulls(|more|)) == Handed(tries, ns) + Concat(Chunks(more))
    decreases |more|
  {
    hide Handed, Chunks, Concat;
    if more == [] {
      NoChunks();
      assert tries + [] == tries && ns + Fulls(0) == ns;
    } else {
      var n := |more| - 1;
      HandedChunks(tries, ns, more[..n]);
      HandedSnoc(tries + more[..n], ns + Fulls(n), more[n], SECTOR_SIZE);
      assert tries + more[..n] + [more[n]] == tries + more;
      assert ns + Fulls(n) + [SECTOR_SIZE] == ns + Fulls(|more|);
      ChunksSnoc(more);
      Regroup(Handed(tries, ns), Concat(Chunks(more[..n])), more[n].op.data);
      assert more[n].op.data[..SECTOR_SIZE] == more[n].op.data;
    }
  }

  /** The lengths of the sectors the file has gained. */
  function KeptLengths(tries: seq<Attempt>, ns: seq<nat>): (ks: seq<nat>)
    requires Meaning(tries, ns)
    decreases |tries|
  {
    if tries == [] then []
    else
      var n := |tries| - 1;
      KeptLengths(tries[..n], ns[..n]) + if tries[n].done && tries[n].op.Append? then [ns[n]] else []
  }

  lemma {:induction false} KeptLengthsFit(tries: seq<Attempt>, ns: seq<nat>)
    requires Meaning(tries, ns)
    ensures |KeptLengths(tries, ns)| == |Kept(tries)|
    ensures forall i :: 0 <= i < |KeptLengths(tries, ns)| ==> KeptLengths(tries, ns)[i] <= SECTOR_SIZE
    decreases |tries|
  {
    if tries != [] {
      KeptLengthsFit(tries[..|tries| - 1], ns[..|tries| - 1]);
    }
  }

  lemma StrippedSnoc(cs: seq<Sector>, ns: seq<nat>, c: Sector, n: nat)
    requires |ns| == |cs| && n <= SECTOR_SIZE && forall i :: 0 <= i < |ns| ==> ns[i] <= SECTOR_SIZE
    ensures Stripped(cs + [c], ns + [n]) == Stripped(cs, ns) + c[..n]
  {
    StrippedPrefix(cs, cs + [c], ns);
    assert (ns + [n])[..|ns|] == ns;
  }

  /** Without a miss everything handed to the card is in the file. */
  lemma {:induction false} NothingMissed(tries: seq<Attempt>, ns: seq<nat>)
    requires Meaning(tries, ns) && Misses(tries) == 0
    ensures |KeptLengths(tries, ns)| == |Kept(tries)|
    ensures forall i :: 0 <= i < |KeptLengths(tries, ns)| ==> KeptLengths(tries, ns)[i] <= SECTOR_SIZE
    ensures Handed(tries, ns) == Stripped(Kept(tries), KeptLengths(tries, ns))
    decreases |tries|
  {
    hide Stripped;
    KeptLengthsFit(tries, ns);
    if tries == [] {
      StrippedNothing();
    } else {
      var n := |tries| - 1;
      NothingMissed(tries[..n], ns[..n]);
      if tries[n].op.Append? {
        StrippedSnoc(Kept(tries[..n]), KeptLengths(tries[..n], ns[..n]), tries[n].op.data, ns[n]);
      } else {
        assert Kept(tries) == Kept(tries[..n]) + [] == Kept(tries[..n]);
        assert KeptLengths(tries, ns) == KeptLengths(tries[..n], ns[..n]) + [] == KeptLengths(tries[..n], ns[..n]);
      }
    }
  }

  lemma StrippedNothing()
    ensures Stripped([], []) == []
  {}

  lemma HandedFlush(tries: seq<Attempt>, ns: seq<nat>, more: seq<Attempt>, pad: Sector, n: nat)
    requires Meaning(tries, ns) && n < SECTOR_SIZE && Ops(more) == FlushOps(n > 0, pad)
    ensures var ns' := ns + if n > 0 then [n, 0] else [0];
            && Meaning(tries + more, ns')
            && Handed(tries + more, ns') == Handed(tries, ns) + pad[..n]
  {
    hide Handed;
    var one := more[0];
    if n > 0 {
      HandedSnoc(tries, ns, one, n);
      HandedSnoc(tries + [one], ns + [n], more[1], 0);
      assert tries + [one] + [more[1]] == tries + more && ns + [n] + [0] == ns + [n, 0];
      assert Ops(more)[0] == Append(pad) && Ops(more)[1] == UpdateSize;
    } else {
      HandedSnoc(tries, ns, one, 0);
      assert tries + [one] == tries + more;
      assert Ops(more)[0] == UpdateSize;
    }
  }

  // ---- one pass ---------------------------------------------------------------------------------

  datatype Stop = Running | Escaped | Extending

  /** What does not change while the loop runs. */
  datatype Setting = Setting(v: Volume, hi: nat, esc: byte, count: byte)

  /** Everything the loop works on, at one moment. */
  datatype Moment = Moment(
    ring: Ring, accepted: seq<byte>, flushes: seq<(nat, nat)>, seen: nat, pending: bool,
    disk: Disk, log: LogState, failures: nat, eeprom: seq<byte>)

  ghost function Now(u: UartRing, state: E.EscapeState, log: LogFile, card: SdCard, eeprom: array<byte>): (m: Moment)
    requires u.Valid()
    reads u, u.ring, state, log, card, eeprom
    ensures m.ring.Valid()
  {
    Moment(u.View(), u.accepted, u.flushes, state.escSeen, state.flushPending, card.disk, log.View(), card.failures,
           eeprom[..])
  }

  /** Interrupts: the bytes accepted meanwhile join the queue, and nothing else happens. */
  ghost predicate Arrives(a: Moment, b: Moment) {
    && a.ring.Valid() && b.ring.Valid() && a.accepted <= b.accepted && b.ring.tail == a.ring.tail
    && b.ring.Queue() == a.ring.Queue() + b.accepted[|a.accepted|..]
    && b == a.(ring := b.ring, accepted := b.accepted)
  }

  predicate AllAppends(tries: seq<Attempt>) {
    forall i :: 0 <= i < |tries| ==> tries[i].op.Append?
  }

  /** The chunks drained by these attempts. */
  function DrainedBytes(tries: seq<Attempt>): seq<byte> {
    if AllAppends(tries) then Concat(Chunks(tries)) else []
  }

  /** Chunks leave the queue for the card, one attempt each, while bytes keep arriving. None of
      them completes an escape sequence. */
  ghost predicate Drains(w: Setting, a: Moment, tries: seq<Attempt>, b: Moment) {
    && a.ring.Valid() && b.ring.Valid() && a.accepted <= b.accepted
    && b == a.(ring := b.ring, accepted := b.accepted, seen := b.seen, disk := b.disk, log := b.log,
               failures := b.failures)
    && AllAppends(tries)
    && a.ring.Queue() + b.accepted[|a.accepted|..] == DrainedBytes(tries) + b.ring.Queue()
    && Tries(a.disk, w.v, w.hi, a.log, tries, b.disk, b.log) && b.failures == a.failures + Misses(tries)
    && !E.Scan(DrainedBytes(tries), w.esc, w.count, a.seen).fired
  }

  /** Less than a chunk is left. */
  ghost predicate DrainsDry(w: Setting, a: Moment, tries: seq<Attempt>, b: Moment) {
    && Drains(w, a, tries, b) && b.ring.Avail() < SECTOR_SIZE
    && E.Scan(DrainedBytes(tries), w.esc, w.count, a.seen) == E.Scanned(false, b.seen)
  }

  /** The scan of the chunk the drain came to. */
  ghost function NextScan(w: Setting, a: Moment, tries: seq<Attempt>, b: Moment): E.Scanned
    requires b.ring.Valid() && b.ring.Avail() >= SECTOR_SIZE
  {
    E.Scan(DrainedBytes(tries) + b.ring.Queue()[..SECTOR_SIZE], w.esc, w.count, a.seen)
  }

  /** The idle flush: the queue goes into one padded sector, if it holds anything; directory
      entry and recovery record follow. The escape counter is not touched. */
  ghost predicate Flushes(w: Setting, a: Moment, tries: seq<Attempt>, b: Moment) {
    && a.ring.Valid() && b.ring.Valid() && a.ring.Avail() < SECTOR_SIZE && b.ring.Queue() == []
    && b == a.(ring := b.ring, flushes := a.flushes + [(a.ring.tail, a.ring.Avail())], disk := b.disk, log := b.log,
               failures := b.failures, eeprom := b.eeprom)
    && Ops(tries) == FlushOps(a.ring.Avail() > 0, Pad(a.ring.cells, a.ring.tail, a.ring.Avail()))
    && Tries(a.disk, w.v, w.hi, a.log, tries, b.disk, b.log) && b.failures == a.failures + Misses(tries)
    && |a.eeprom| >= REC_HI + 2 && b.log.bytesWritten < U32
    && b.eeprom == Splice(a.eeprom, REC_LO, Bytes32(b.log.bytesWritten))
  }

  /** The test of the loop: the timer has fired, and less than a chunk is queued. */
  predicate Due(m: Moment) { m.pending && m.ring.Avail() < SECTOR_SIZE }

  /** The moments of one pass: at its start, after draining, at the test, after the flush if
      there is one, and at its end. */
  datatype Pass = Pass(
    start: Moment, drained: seq<Attempt>, left: Moment, test: Moment, flushed: seq<Attempt>, done: Moment, end: Moment)

  /** One pass; `fired` says whether the idle timer has fired since the last test. */
  ghost predicate PassOk(w: Setting, fired: bool, p: Pass) {
    && DrainsDry(w, p.start, p.drained, p.left)
    && Arrives(p.left.(pending := p.left.pending || fired), p.test)
    && (if Due(p.test) then Flushes(w, p.test.(pending := false), p.flushed, p.done)
        else p.flushed == [] && p.done == p.test)
    && Arrives(p.done, p.end)
  }

  ghost predicate Passes(w: Setting, timer: seq<bool>, a: Moment, ps: seq<Pass>, b: Moment) {
    && |ps| <= |timer|
    && (forall i :: 0 <= i < |ps| ==> PassOk(w, timer[i], ps[i]))
    && (forall i :: 0 <= i < |ps| ==> ps[i].start == EndOf(a, ps, i))
    && b == EndOf(a, ps, |ps|)
  }

  /** Where the first n passes end. */
  function EndOf(a: Moment, ps: seq<Pass>, n: nat): Moment
    requires n <= |ps|
  {
    if n == 0 then a else ps[n - 1].end
  }

  /** How the loop is left: after its last pass; at a chunk that completes an escape sequence;
      or where the file has to be extended, for a chunk or for a flush. */
  ghost predicate Stops(w: Setting, fired: bool, a: Moment, more: seq<Attempt>, left: Moment, stop: Stop, b: Moment) {
    match stop
    case Running => b == a && more == []
    case Escaped =>
      Drains(w, a, more, left) && b == left && left.ring.Avail() >= SECTOR_SIZE && NextScan(w, a, more, left).fired
    case Extending =>
      && Full(b.log) && Drains(w, a, more, left)
      && if left.ring.Avail() >= SECTOR_SIZE
         then b == left && NextScan(w, a, more, left) == E.Scanned(false, left.seen)
         else DrainsDry(w, a, more, left) && Arrives(left.(pending := left.pending || fired), b) && Due(b) &&
              b.ring.Avail() > 0
  }

  // ---- the loop as it runs ----------------------------------------------------------------------

  /** Interrupts between the steps of the main loop. */
  method Arrivals(u: UartRing, state: E.EscapeState, log: LogFile, card: SdCard, eeprom: array<byte>)
    requires u.Valid() && eeprom != u.ring
    modifies u`ringHead, u`line, u`arrived, u`accepted, u.ring
    ensures u.Valid() && Arrives(old(Now(u, state, log, card, eeprom)), Now(u, state, log, card, eeprom))
  {
    hide Ring.Queue;
    var gained := u.Interrupts();
    assert u.accepted[|old(u.accepted)|..] == gained;
  }

  method DrainPass(u: UartRing, state: E.EscapeState, log: LogFile, card: SdCard, v: Volume, esc: byte, count: byte,
                   eeprom: array<byte>, ghost hi: nat)
    returns (stop: Stop, ghost more: seq<Attempt>)
    requires u.Valid() && state.escSeen < E.Needed(count) && eeprom != u.ring
    requires v.Fits(hi) && StateOk(log.View())
    modifies u`ringHead, u`ringTail, u`line, u`arrived, u`accepted, u.ring, state`escSeen, log, card
    ensures u.Valid() && StateOk(log.View()) && (stop.Running? ==> state.escSeen < E.Needed(count))
    ensures Drains(Setting(v, hi, esc, count), old(Now(u, state, log, card, eeprom)), more,
                   Now(u, state, log, card, eeprom))
    ensures match stop
            case Running =>
              && u.View().Avail() < SECTOR_SIZE
              && DrainsDry(Setting(v, hi, esc, count), old(Now(u, state, log, card, eeprom)), more,
                           Now(u, state, log, card, eeprom))
            case Escaped =>
              && u.View().Avail() >= SECTOR_SIZE
              && NextScan(Setting(v, hi, esc, count), old(Now(u, state, log, card, eeprom)), more,
                          Now(u, state, log, card, eeprom)).fired
            case Extending =>
              && u.View().Avail() >= SECTOR_SIZE && Full(log.View())
              && NextScan(Setting(v, hi, esc, count), old(Now(u, state, log, card, eeprom)), more,
                          Now(u, state, log, card, eeprom)) == E.Scanned(false, state.escSeen)
  {
    hide Ring.Queue, Volume.Fits, StateOk, Tries, Misses, Concat, E.Scan;
    ghost var gained;
    var escaped, full;
    escaped, full, more, gained := LogProcess(u, state, log, card, v, esc, count, hi);
    assert u.accepted[|old(u.accepted)|..] == gained;
    stop := if escaped then Escaped else if full then Extending else Running;
  }

  method FlushPass(u: UartRing, state: E.EscapeState, log: LogFile, card: SdCard, v: Volume, eeprom: array<byte>,
                   ghost w: Setting)
    returns (ghost flushed: seq<Attempt>)
    requires u.Valid() && u.Available() < SECTOR_SIZE && (u.Available() > 0 ==> !Full(log.View()))
    requires eeprom.Length >= REC_HI + 2 && eeprom != u.ring && w.v == v
    requires v.Fits(w.hi) && StateOk(log.View())
    modifies u`ringTail, u`flushes, u.ring, log, card, eeprom
    ensures u.Valid() && StateOk(log.View())
    ensures Flushes(w, old(Now(u, state, log, card, eeprom)), flushed, Now(u, state, log, card, eeprom))
  {
    hide Ring.Queue, Volume.Fits, StateOk, Tries, Misses, CopySafe, Pad, FlushOps, Recorded, Splice, Bytes32;
    ghost var pad;
    pad, flushed := LogFlush(u, log, card, v, eeprom, w.hi);
  }

  /** The second half of a pass: flush if the timer has fired and less than a chunk is queued. */
  method TestPass(u: UartRing, state: E.EscapeState, log: LogFile, card: SdCard, v: Volume, eeprom: array<byte>,
                  ghost w: Setting)
    returns (stop: Stop, ghost flushed: seq<Attempt>)
    requires u.Valid() && eeprom.Length >= REC_HI + 2 && eeprom != u.ring && w.v == v
    requires v.Fits(w.hi) && StateOk(log.View())
    modifies u`ringTail, u`flushes, u.ring, state`flushPending, log, card, eeprom
    ensures u.Valid() && StateOk(log.View()) && !stop.Escaped?
    ensures var test, done := old(Now(u, state, log, card, eeprom)), Now(u, state, log, card, eeprom);
            if stop.Extending? then done == test && Due(test) && test.ring.Avail() > 0 && Full(test.log)
            else if Due(test) then Flushes(w, test.(pending := false), flushed, done)
            else flushed == [] && done == test
  {
    hide Volume.Fits, StateOk, Flushes, Ring.Queue;
    stop, flushed := Running, [];
    if state.flushPending && u.Available() < SECTOR_SIZE {
      if u.Available() > 0 && log.curLba >= log.endLba {
        stop := Extending;
        return;
      }
      state.flushPending := false;
      flushed := FlushPass(u, state, log, card, v, eeprom, w);
    }
  }

  /** One pass of the main loop. */
  method OnePass(u: UartRing, state: E.EscapeState, log: LogFile, card: SdCard, v: Volume, esc: byte, count: byte,
                 eeprom: array<byte>, fired: bool, ghost hi: nat)
    returns (stop: Stop, ghost p: Pass, ghost more: seq<Attempt>, ghost left: Moment)
    requires u.Valid() && state.escSeen < E.Needed(count) && eeprom.Length >= REC_HI + 2 && eeprom != u.ring
    requires v.Fits(hi) && StateOk(log.View())
    modifies u`ringHead, u`ringTail, u`line, u`arrived, u`accepted, u`flushes, u.ring, state, log, card, eeprom
    ensures u.Valid() && StateOk(log.View()) && (stop.Running? ==> state.escSeen < E.Needed(count))
    ensures if stop.Running?
            then PassOk(Setting(v, hi, esc, count), fired, p) && p.start == old(Now(u, state, log, card, eeprom)) &&
                 p.end == Now(u, state, log, card, eeprom)
            else Stops(Setting(v, hi, esc, count), fired, old(Now(u, state, log, card, eeprom)), more, left, stop,
                       Now(u, state, log, card, eeprom))
  {
    hide Volume.Fits, StateOk, Drains, DrainsDry, Arrives, Flushes, NextScan, Ring.Avail, Ring.Queue,
         UartRing.Available, Due;
    ghost var w, start := Setting(v, hi, esc, count), Now(u, state, log, card, eeprom);
    stop, more := DrainPass(u, state, log, card, v, esc, count, eeprom, hi);
    left := Now(u, state, log, card, eeprom);
    p := Pass(start, more, left, left, [], left, left);
    if !stop.Running? {
      return;
    }
    if fired {
      state.flushPending := true;
    }
    Arrivals(u, state, log, card, eeprom);
    ghost var test, flushed := Now(u, state, log, card, eeprom), [];
    stop, flushed := TestPass(u, state, log, card, v, eeprom, w);
    if !stop.Running? {
      return;
    }
    ghost var done := Now(u, state, log, card, eeprom);
    Arrivals(u, state, log, card, eeprom);
    p := Pass(start, more, left, test, flushed, done, Now(u, state, log, card, eeprom));
  }

  // ---- what the passes amount to ----------------------------------------------------------------

  ghost predicate SafeFlushes(flushes: seq<(nat, nat)>) {
    forall i :: 0 <= i < |flushes| ==>
      flushes[i].0 < RING_SIZE && flushes[i].1 < SECTOR_SIZE && CopySafe(flushes[i].0, flushes[i].1)
  }

  lemma SafeMore(made: seq<(nat, nat)>, flushes: seq<(nat, nat)>, tail: nat, n: nat)
    requires made <= flushes && tail < RING_SIZE && n < SECTOR_SIZE
    ensures SafeFlushes((flushes + [(tail, n)])[|made|..]) <==> SafeFlushes(flushes[|made|..]) && CopySafe(tail, n)
  {
    hide CopySafe;
    var a, b := flushes[|made|..], (flushes + [(tail, n)])[|made|..];
    assert b == a + [(tail, n)];
    assert SafeFlushes(b) ==> SafeFlushes(a) && CopySafe(tail, n) by {
      if SafeFlushes(b) {
        assert b[|a|] == (tail, n);
        assert forall i :: 0 <= i < |a| ==> a[i] == b[i];
      }
    }
  }

  /** All attempts of the passes, in order. */
  function TriesOf(ps: seq<Pass>): seq<Attempt> {
    if ps == [] then []
    else TriesOf(ps[..|ps| - 1]) + ps[|ps| - 1].drained + ps[|ps| - 1].flushed
  }

  /** How many bytes of its sector each of them means. */
  function MeantOf(ps: seq<Pass>): seq<nat> {
    if ps == [] then []
    else MeantOf(ps[..|ps| - 1]) + Fulls(|ps[|ps| - 1].drained|) + FlushMeant(ps[|ps| - 1].test)
  }

  function FlushMeant(test: Moment): seq<nat> {
    if !Due(test) then [] else if test.ring.Avail() > 0 then [test.ring.Avail(), 0] else [0]
  }

  /** The bytes scanned: those of the chunks drained. What a flush takes is never scanned. */
  function ScannedBytes(ps: seq<Pass>): seq<byte> {
    if ps == [] then [] else ScannedBytes(ps[..|ps| - 1]) + DrainedBytes(ps[|ps| - 1].drained)
  }

  /** How many of the passes flush. */
  function FlushCount(ps: seq<Pass>): nat {
    if ps == [] then 0 else FlushCount(ps[..|ps| - 1]) + (if Due(ps[|ps| - 1].test) then 1 else 0)
  }

  lemma PassesPrefix(w: Setting, timer: seq<bool>, a: Moment, ps: seq<Pass>, b: Moment)
    requires Passes(w, timer, a, ps, b) && ps != []
    ensures |ps| <= |timer|
    ensures Passes(w, timer, a, ps[..|ps| - 1], ps[|ps| - 1].start) && PassOk(w, timer[|ps| - 1], ps[|ps| - 1])
    ensures ps[|ps| - 1].end == b
  {
    hide PassOk, EndOf;
    var n := |ps| - 1;
    var front := ps[..n];
    forall i | 0 <= i < n ensures PassOk(w, timer[i], front[i]) && front[i].start == EndOf(a, front, i) {
      FrontEnd(a, ps, i);
      assert front[i] == ps[i];
    }
    FrontEnd(a, ps, n);
    assert ps[n].start == EndOf(a, ps, n);
    EndOfAll(a, ps);
  }

  lemma FrontEnd(a: Moment, ps: seq<Pass>, i: nat)
    requires i < |ps|
    ensures EndOf(a, ps[..|ps| - 1], i) == EndOf(a, ps, i)
  {}

  lemma EndOfAll(a: Moment, ps: seq<Pass>)
    requires ps != []
    ensures EndOf(a, ps, |ps|) == ps[|ps| - 1].end
  {}

  lemma PassesNext(w: Setting, timer: seq<bool>, a: Moment, ps: seq<Pass>, p: Pass)
    requires Passes(w, timer, a, ps, p.start) && |ps| < |timer| && PassOk(w, timer[|ps|], p)
    ensures Passes(w, timer, a, ps + [p], p.end)
  {
    hide PassOk, EndOf;
    var n, all := |ps|, ps + [p];
    forall i | 0 <= i <= n ensures PassOk(w, timer[i], all[i]) && all[i].start == EndOf(a, all, i) {
      EndKept(a, ps, p, i);
      assert i < n ==> all[i] == ps[i];
    }
    LastEnd(a, ps, p);
  }

  lemma EndKept(a: Moment, ps: seq<Pass>, p: Pass, i: nat)
    requires i <= |ps|
    ensures EndOf(a, ps + [p], i) == EndOf(a, ps, i)
  {}

  lemma LastEnd(a: Moment, ps: seq<Pass>, p: Pass)
    ensures EndOf(a, ps + [p], |ps + [p]|) == p.end
  {}

  /** From a to b: which file operations were tried, and, while every flush copied safely, that
      no byte accepted is missing from what was handed to the card and what is queued. */
  ghost predicate Account(w: Setting, a: Moment, b: Moment, before: seq<byte>, tries: seq<Attempt>, ns: seq<nat>) {
    && b.ring.Valid() && a.accepted <= b.accepted
    && Tries(a.disk, w.v, w.hi, a.log, tries, b.disk, b.log) && b.failures == a.failures + Misses(tries)
    && Meaning(tries, ns)
    && a.flushes <= b.flushes
    && (SafeFlushes(b.flushes[|a.flushes|..]) ==> b.accepted == before + Handed(tries, ns) + b.ring.Queue())
  }

  lemma StartAccount(w: Setting, a: Moment, before: seq<byte>)
    requires a.ring.Valid() && a.accepted == before + a.ring.Queue()
    ensures Account(w, a, a, before, [], [])
  {
    assert before + [] == before;
  }

  lemma ArrivesAccount(w: Setting, a: Moment, m: Moment, b: Moment, before: seq<byte>, tries: seq<Attempt>,
                       ns: seq<nat>)
    requires Account(w, a, m, before, tries, ns) && Arrives(m, b)
    ensures Account(w, a, b, before, tries, ns)
  {
    hide Ring.Queue, Tries, Misses, Handed, SafeFlushes, Meaning;
    var g := b.accepted[|m.accepted|..];
    assert b.accepted == m.accepted + g;
    if SafeFlushes(b.flushes[|a.flushes|..]) {
      Regroup(before + Handed(tries, ns), m.ring.Queue(), g);
    }
  }

  lemma MovedOn(a: seq<byte>, b: seq<byte>, q: seq<byte>, g: seq<byte>, c: seq<byte>, r: seq<byte>)
    requires q + g == c + r
    ensures a + b + q + g == a + (b + c) + r
  {
    Regroup(a + b, q, g);
    Regroup(a + b, c, r);
    Regroup(a, b, c);
  }

  lemma DrainsAccount(w: Setting, a: Moment, m: Moment, more: seq<Attempt>, b: Moment, before: seq<byte>,
                      tries: seq<Attempt>, ns: seq<nat>)
    requires Account(w, a, m, before, tries, ns) && Drains(w, m, more, b)
    ensures Account(w, a, b, before, tries + more, ns + Fulls(|more|))
  {
    hide Ring.Queue, Tries, Misses, Handed, SafeFlushes, Meaning, Concat, E.Scan, Fulls;
    var g := b.accepted[|m.accepted|..];
    assert b.accepted == m.accepted + g;
    TriesJoin(a.disk, w.v, w.hi, a.log, tries, m.disk, m.log, more, b.disk, b.log);
    MissesJoin(tries, more);
    HandedChunks(tries, ns, more);
    if SafeFlushes(b.flushes[|a.flushes|..]) {
      MovedOn(before, Handed(tries, ns), m.ring.Queue(), g, DrainedBytes(more), b.ring.Queue());
    }
  }

  lemma FlushesAccount(w: Setting, a: Moment, m: Moment, flushed: seq<Attempt>, b: Moment, before: seq<byte>,
                       tries: seq<Attempt>, ns: seq<nat>)
    requires Account(w, a, m, before, tries, ns) && Flushes(w, m, flushed, b)
    ensures var n := m.ring.Avail();
            Account(w, a, b, before, tries + flushed, ns + if n > 0 then [n, 0] else [0])
  {
    hide Ring.Queue, Ring.Avail, Tries, Misses, Handed, SafeFlushes, Meaning, Pad, CopySafe, FlushOps, Splice;
    var n, q := m.ring.Avail(), m.ring.Queue();
    var pad := Pad(m.ring.cells, m.ring.tail, n);
    TriesJoin(a.disk, w.v, w.hi, a.log, tries, m.disk, m.log, flushed, b.disk, b.log);
    MissesJoin(tries, flushed);
    HandedFlush(tries, ns, flushed, pad, n);
    SafeMore(a.flushes, m.flushes, m.ring.tail, n);
    if SafeFlushes(b.flushes[|a.flushes|..]) {
      SafePad(m.ring);
      assert pad[..n] == q;
      Regroup(before, Handed(tries, ns), q);
      assert before + (Handed(tries, ns) + q) + [] == before + (Handed(tries, ns) + q);
    }
  }

  lemma PassAccount(w: Setting, fired: bool, a: Moment, p: Pass, before: seq<byte>, tries: seq<Attempt>, ns: seq<nat>)
    requires Account(w, a, p.start, before, tries, ns) && PassOk(w, fired, p)
    ensures Account(w, a, p.end, before, tries + p.drained + p.flushed,
                    ns + Fulls(|p.drained|) + FlushMeant(p.test))
  {
    hide Account, Drains, Arrives, Flushes, Fulls, Ring.Avail, E.Scan, DrainedBytes;
    var t, k := tries + p.drained, ns + Fulls(|p.drained|);
    DrainsAccount(w, a, p.start, p.drained, p.left, before, tries, ns);
    FlagAccount(w, a, p.left, p.left.pending || fired, before, t, k);
    ArrivesAccount(w, a, p.left.(pending := p.left.pending || fired), p.test, before, t, k);
    if Due(p.test) {
      FlagAccount(w, a, p.test, false, before, t, k);
      FlushesAccount(w, a, p.test.(pending := false), p.flushed, p.done, before, t, k);
    } else {
      assert t + [] == t && k + [] == k;
    }
    ArrivesAccount(w, a, p.done, p.end, before, t + p.flushed, k + FlushMeant(p.test));
  }

  lemma FlagAccount(w: Setting, a: Moment, m: Moment, flag: bool, before: seq<byte>, tries: seq<Attempt>, ns: seq<nat>)
    requires Account(w, a, m, before, tries, ns)
    ensures Account(w, a, m.(pending := flag), before, tries, ns)
  {
    hide Ring.Queue, Tries, Misses, Handed, SafeFlushes, Meaning;
  }

  lemma {:induction false} PassesAccount(w: Setting, timer: seq<bool>, a: Moment, ps: seq<Pass>, b: Moment,
                                         before: seq<byte>)
    requires Passes(w, timer, a, ps, b) && a.ring.Valid() && a.accepted == before + a.ring.Queue()
    ensures Account(w, a, b, before, TriesOf(ps), MeantOf(ps))
    decreases |ps|
  {
    hide Account, PassOk, Ring.Queue, FlushMeant, Fulls;
    if ps == [] {
      StartAccount(w, a, before);
    } else {
      var n := |ps| - 1;
      PassesPrefix(w, timer, a, ps, b);
      PassesAccount(w, timer, a, ps[..n], ps[n].start, before);
      PassAccount(w, timer[n], a, ps[n], before, TriesOf(ps[..n]), MeantOf(ps[..n]));
    }
  }

  /** The flushes made are those that were due. */
  lemma {:induction false} FlushesCounted(w: Setting, timer: seq<bool>, a: Moment, ps: seq<Pass>, b: Moment)
    requires Passes(w, timer, a, ps, b)
    ensures |b.flushes| == |a.flushes| + FlushCount(ps)
    decreases |ps|
  {
    hide PassOk;
    if ps != [] {
      var n := |ps| - 1;
      PassesPrefix(w, timer, a, ps, b);
      FlushesCounted(w, timer, a, ps[..n], ps[n].start);
      PassCounted(w, timer[n], ps[n]);
    }
  }

  lemma PassCounted(w: Setting, fired: bool, p: Pass)
    requires PassOk(w, fired, p)
    ensures |p.end.flushes| == |p.start.flushes| + if Due(p.test) then 1 else 0
  {
    hide Ring.Queue, Ring.Avail, Tries, Misses, Pad, FlushOps, Splice, E.Scan, DrainedBytes;
  }

  /** A flush that is due leaves nothing undone: on a line that has been silent since the
      drain, the timer's firing empties the queue into the file, has the size updated and the
      byte count recorded, and clears the flag. The bytes flushed are not scanned. */
  lemma IdleFlush(w: Setting, fired: bool, p: Pass)
    requires PassOk(w, fired, p) && (fired || p.start.pending) && p.end.accepted == p.left.accepted
    ensures p.left.ring.Valid() && p.end.ring.Valid() && p.end.ring.Queue() == [] && !p.end.pending
    ensures p.left.ring.Avail() < SECTOR_SIZE
    ensures p.end.flushes == p.start.flushes + [(p.left.ring.tail, p.left.ring.Avail())]
    ensures |p.flushed| == (if p.left.ring.Avail() > 0 then 2 else 1) && p.flushed[|p.flushed| - 1].op == UpdateSize
    ensures p.left.ring.Avail() > 0 && CopySafe(p.left.ring.tail, p.left.ring.Avail()) ==>
              p.flushed[0].op == Append(p.left.ring.Queue() + Zeros(SECTOR_SIZE - p.left.ring.Avail()))
    ensures |p.end.eeprom| >= REC_HI + 2 && Recorded(p.end.eeprom) == p.end.log.bytesWritten
    ensures p.end.seen == p.left.seen
  {
    hide Ring.Queue, Ring.Avail, Tries, Misses, CopySafe, Pad, Splice, Recorded, E.Scan, DrainedBytes;
    assert p.test.accepted[|p.left.accepted|..] == [] && p.end.accepted[|p.done.accepted|..] == [];
    assert p.test.ring.Queue() == p.left.ring.Queue() && p.end.ring.Queue() == p.done.ring.Queue();
    RingLength(p.left.ring);
    RingLength(p.test.ring);
    SafePad(p.test.ring);
    RecordApart(p.test.eeprom, p.end.log.bytesWritten);
    assert Ops(p.flushed)[|p.flushed| - 1] == p.flushed[|p.flushed| - 1].op && Ops(p.flushed)[0] == p.flushed[0].op;
  }

  lemma RingLength(r: Ring)
    requires r.Valid()
    ensures |r.Queue()| == r.Avail()
  {}

  // ---- escape sequences -------------------------------------------------------------------------

  lemma {:induction false} PassesScan(w: Setting, timer: seq<bool>, a: Moment, ps: seq<Pass>, b: Moment)
    requires Passes(w, timer, a, ps, b)
    ensures E.Scan(ScannedBytes(ps), w.esc, w.count, a.seen) == E.Scanned(false, b.seen)
    decreases |ps|
  {
    hide PassOk, DrainedBytes;
    if ps != [] {
      var n := |ps| - 1;
      PassesPrefix(w, timer, a, ps, b);
      PassesScan(w, timer, a, ps[..n], ps[n].start);
      PassScan(w, timer[n], ps[n]);
      ScanConcat(ScannedBytes(ps[..n]), DrainedBytes(ps[n].drained), w.esc, w.count, a.seen);
    }
  }

  lemma PassScan(w: Setting, fired: bool, p: Pass)
    requires PassOk(w, fired, p)
    ensures E.Scan(DrainedBytes(p.drained), w.esc, w.count, p.start.seen) == E.Scanned(false, p.end.seen)
  {
    hide Ring.Queue, Ring.Avail, Tries, Misses, Pad, FlushOps, Splice, E.Scan, DrainedBytes;
  }

  /** All that was scanned up to a stop, the run under way at the beginning included. */
  function Scanned(w: Setting, seen: nat, ps: seq<Pass>, more: seq<Attempt>): seq<byte> {
    E.RunOf(w.esc, seen) + (ScannedBytes(ps) + DrainedBytes(more))
  }

  /** The loop goes to command mode exactly when the chunks drained so far, and then the next
      one, complete a run of escape characters for the first time. */
  lemma LoopEscapes(w: Setting, timer: seq<bool>, a: Moment, ps: seq<Pass>, m: Moment, fired: bool,
                    more: seq<Attempt>, left: Moment, stop: Stop, b: Moment)
    requires Passes(w, timer, a, ps, m) && Stops(w, fired, m, more, left, stop, b) && a.seen < E.Needed(w.count)
    requires b.ring.Valid() && (stop.Running? <==> |ps| == |timer|) && |ps| <= |timer|
    ensures EscapesRight(w, timer, a.seen, ps, more, stop, b)
  {
    hide PassOk, Ring.Queue, Ring.Avail, Drains, DrainsDry, Arrives, DrainedBytes, E.Scan, E.RunOf, Passes;
    var done := ScannedBytes(ps);
    var s := done + DrainedBytes(more);
    PassesScan(w, timer, a, ps, m);
    NotFired(w, m, more, left, stop, fired, b);
    ScanConcat(done, DrainedBytes(more), w.esc, w.count, a.seen);
    E.ScanMeaning(s, w.esc, w.count, a.seen);
    if b.ring.Avail() >= SECTOR_SIZE && !stop.Running? {
      RingLength(b.ring);
      var next := b.ring.Queue()[..SECTOR_SIZE];
      NextFires(w, m, more, left, stop, fired, b);
      ScanConcat(done, DrainedBytes(more) + next, w.esc, w.count, a.seen);
      Regroup(done, DrainedBytes(more), next);
      Regroup(E.RunOf(w.esc, a.seen), s, next);
      Fires(s + next, Scanned(w, a.seen, ps, more) + next, w.esc, w.count, a.seen);
    }
  }

  lemma Fires(s: seq<byte>, t: seq<byte>, esc: byte, count: nat, seen: nat)
    requires seen < E.Needed(count) && t == E.RunOf(esc, seen) + s
    ensures E.Scan(s, esc, count, seen).fired <==> exists p :: E.FirstCompletion(t, esc, count, p)
  {
    hide E.Scan, E.RunOf;
    E.ScanMeaning(s, esc, count, seen);
  }

  lemma NotFired(w: Setting, m: Moment, more: seq<Attempt>, left: Moment, stop: Stop, fired: bool, b: Moment)
    requires Stops(w, fired, m, more, left, stop, b)
    ensures !E.Scan(DrainedBytes(more), w.esc, w.count, m.seen).fired
    ensures stop.Running? ==> E.Scan(DrainedBytes(more), w.esc, w.count, m.seen) == E.Scanned(false, b.seen)
  {
    hide Ring.Queue, Ring.Avail, Tries, Misses;
    assert Chunks([]) == [];
  }

  lemma NextFires(w: Setting, m: Moment, more: seq<Attempt>, left: Moment, stop: Stop, fired: bool, b: Moment)
    requires Stops(w, fired, m, more, left, stop, b) && !stop.Running? && b.ring.Valid()
    requires b.ring.Avail() >= SECTOR_SIZE
    ensures E.Scan(DrainedBytes(more) + b.ring.Queue()[..SECTOR_SIZE], w.esc, w.count, m.seen).fired <==> stop.Escaped?
  {
    hide Ring.Queue, Ring.Avail, Tries, Misses, E.Scan, DrainedBytes;
  }

  ghost predicate EmptyFlushes(ps: seq<Pass>) {
    forall i :: 0 <= i < |ps| ==> (Due(ps[i].test) ==> ps[i].test.ring.Avail() == 0)
  }

  /** As long as the flushes find the queue empty, what is scanned is what is received: the queue
      at the beginning and the bytes accepted since are the bytes scanned and those still
      queued. */
  lemma {:induction false} NothingFlushed(w: Setting, timer: seq<bool>, a: Moment, ps: seq<Pass>, b: Moment)
    requires Passes(w, timer, a, ps, b) && a.ring.Valid()
    requires EmptyFlushes(ps)
    ensures b.ring.Valid() && a.accepted <= b.accepted
    ensures a.ring.Queue() + b.accepted[|a.accepted|..] == ScannedBytes(ps) + b.ring.Queue()
    decreases |ps|
  {
    hide Passes, PassOk, Ring.Queue, Ring.Avail, DrainedBytes, EmptyFlushes;
    if ps == [] {
      NoneYet(w, timer, a, b);
    } else {
      var n := |ps| - 1;
      var m := ps[n].start;
      EmptyPrefix(ps);
      PassesPrefix(w, timer, a, ps, b);
      NothingFlushed(w, timer, a, ps[..n], m);
      PassScansAll(w, timer[n], ps[n]);
      Telescope(a.ring.Queue(), a.accepted, m.accepted, b.accepted, ScannedBytes(ps[..n]), m.ring.Queue(),
                DrainedBytes(ps[n].drained), b.ring.Queue());
    }
  }

  lemma NoneYet(w: Setting, timer: seq<bool>, a: Moment, b: Moment)
    requires Passes(w, timer, a, [], b)
    ensures b == a
  {}

  lemma EmptyPrefix(ps: seq<Pass>)
    requires EmptyFlushes(ps) && ps != []
    ensures EmptyFlushes(ps[..|ps| - 1]) && (Due(ps[|ps| - 1].test) ==> ps[|ps| - 1].test.ring.Avail() == 0)
  {
    hide Ring.Avail, Due;
    assert forall i :: 0 <= i < |ps| - 1 ==> ps[..|ps| - 1][i] == ps[i];
  }

  lemma PassScansAll(w: Setting, fired: bool, p: Pass)
    requires PassOk(w, fired, p) && (Due(p.test) ==> p.test.ring.Avail() == 0)
    ensures p.start.ring.Valid() && p.end.ring.Valid() && p.start.accepted <= p.end.accepted
    ensures p.start.ring.Queue() + p.end.accepted[|p.start.accepted|..] == DrainedBytes(p.drained) + p.end.ring.Queue()
  {
    hide Ring.Queue, Ring.Avail, Tries, Misses, Pad, FlushOps, Splice, E.Scan, DrainedBytes;
    RingLength(p.test.ring);
    assert p.done.ring.Queue() == p.test.ring.Queue() && p.done.accepted == p.test.accepted;
    var q := p.start.ring.Queue();
    Telescope(q, p.start.accepted, p.left.accepted, p.test.accepted, DrainedBytes(p.drained), p.left.ring.Queue(),
              [], p.test.ring.Queue());
    Telescope(q, p.start.accepted, p.test.accepted, p.end.accepted, DrainedBytes(p.drained) + [], p.test.ring.Queue(),
              [], p.end.ring.Queue());
    assert DrainedBytes(p.drained) + [] + [] == DrainedBytes(p.drained);
  }

  lemma Telescope(q: seq<byte>, x: seq<byte>, y: seq<byte>, z: seq<byte>, done: seq<byte>, r: seq<byte>,
                  more: seq<byte>,
                  t: seq<byte>)
    requires x <= y <= z && q + y[|x|..] == done + r && r + z[|y|..] == more + t
    ensures q + z[|x|..] == done + more + t
  {
    assert z[|x|..] == y[|x|..] + z[|y|..];
    Regroup(q, y[|x|..], z[|y|..]);
    Regroup(done, r, z[|y|..]);
    Regroup(done, more, t);
  }

  /** Three escape characters with a byte between them that is flushed: they are no run on the
      line, but one in what is scanned. */
  lemma FlushJoinsRuns(esc: byte, other: byte)
    requires other != esc
    ensures var first: Sector, second: Sector := E.RunOf(other, 510) + [esc, esc], [esc] + E.RunOf(other, 511);
            && E.Completes(first + second, esc, 3, 513)
            && forall p :: 0 <= p <= 1025 ==> !E.Completes(first + [other] + second, esc, 3, p)
  {
    hide E.RunOf;
    var first, second := E.RunOf(other, 510) + [esc, esc], [esc] + E.RunOf(other, 511);
    assert E.RunLength(first + second, esc, 510) == 0;
    assert E.RunLength(first + second, esc, 511) == 1;
    assert E.RunLength(first + second, esc, 512) == 2;
    assert E.RunLength(first + second, esc, 513) == 3;
    var t := first + [other] + second;
    assert E.RunLength(t, esc, 510) == 0 && E.RunLength(t, esc, 513) == 0;
    forall p | 0 <= p <= 1025 ensures E.RunLength(t, esc, p) < 3 {
      if p == 511 || p == 512 {
        assert E.RunLength(t, esc, 511) == 1;
      } else if p > 0 && p != 514 {
        assert t[p - 1] == other;
      }
    }
  }

  // ---- the loop ---------------------------------------------------------------------------------

  lemma StopsAccount(w: Setting, a: Moment, m: Moment, fired: bool, more: seq<Attempt>, left: Moment, stop: Stop,
                     b: Moment, before: seq<byte>, tries: seq<Attempt>, ns: seq<nat>)
    requires Account(w, a, m, before, tries, ns) && Stops(w, fired, m, more, left, stop, b)
    ensures Account(w, a, b, before, tries + more, ns + Fulls(|more|))
  {
    hide Account, Drains, DrainsDry, Arrives, Ring.Avail, Fulls, DrainedBytes, E.Scan;
    if stop.Running? {
      NoFulls();
      assert tries + [] == tries && ns + [] == ns;
    } else {
      DrainsAccount(w, a, m, more, left, before, tries, ns);
      if stop.Extending? && left.ring.Avail() < SECTOR_SIZE {
        FlagAccount(w, a, left, left.pending || fired, before, tries + more, ns + Fulls(|more|));
        ArrivesAccount(w, a, left.(pending := left.pending || fired), b, before, tries + more, ns + Fulls(|more|));
      }
    }
  }

  lemma NoFulls()
    ensures Fulls(0) == []
  {}

  lemma LooseBasics(d: Disk, v: Volume, hi: nat, s: LogState, content: seq<Sector>)
    requires LooseInv(d, v, hi, s, content)
    ensures v.Fits(hi) && StateOk(s)
  {
    hide LogInv, Cleared;
    if LogInv(d, v, hi, s, content) {
      InvBasics(d, v, hi, s, content);
    } else {
      InvBasics(Cleared(d, s), v, hi, s, content);
    }
  }

  /** What has come of the bytes. Whatever fails, the file is an open log that holds exactly the
      sectors that were counted, and as many attempts missed as the card reported errors. While
      every flush copied safely, the bytes handed to the card, followed by the queue, are what
      was accepted; and without an error all of them are in the file, in every copy of its
      chain. */
  ghost predicate Delivered(w: Setting, a: Moment, b: Moment, content: seq<Sector>, before: seq<byte>,
                            tries: seq<Attempt>, ns: seq<nat>)
  {
    && Account(w, a, b, before, tries, ns)
    && LooseInv(b.disk, w.v, w.hi, b.log, content + Kept(tries))
    && (b.failures == a.failures && LogInv(a.disk, w.v, w.hi, a.log, content) ==>
          && LogInv(b.disk, w.v, w.hi, b.log, content + Kept(tries))
          && ReadsBack(b.disk, w.v, b.log, b.log.firstClus, content + Kept(tries)))
    && (b.failures == a.failures ==>
          && |KeptLengths(tries, ns)| == |Kept(tries)|
          && (forall i :: 0 <= i < |KeptLengths(tries, ns)| ==> KeptLengths(tries, ns)[i] <= SECTOR_SIZE)
          && Handed(tries, ns) == Stripped(Kept(tries), KeptLengths(tries, ns)))
  }

  /** The loop is left early for command mode exactly at the chunk that completes the first run
      of escape characters in what was scanned. */
  ghost predicate EscapesRight(w: Setting, timer: seq<bool>, seen: nat, ps: seq<Pass>, more: seq<Attempt>, stop: Stop,
                               b: Moment)
  {
    var s := Scanned(w, seen, ps, more);
    && b.ring.Valid()
    && (forall p :: 0 <= p <= |s| ==> !E.Completes(s, w.esc, w.count, p))
    && (stop.Running? ==> b.seen == E.RunLength(s, w.esc, |s|))
    && (stop.Escaped? <==>
          |ps| < |timer| && b.ring.Avail() >= SECTOR_SIZE &&
          exists p :: E.FirstCompletion(s + b.ring.Queue()[..SECTOR_SIZE], w.esc, w.count, p))
  }

  /** As many flushes were made as were due, none of which touched the configuration. After the
      last pass less than a chunk is queued of what had arrived when its drain ended; and if
      the timer fired in it and the line has been silent since the drain, the queue is empty
      and the byte count is on record. */
  ghost predicate FlushesRight(timer: seq<bool>, a: Moment, ps: seq<Pass>, stop: Stop, b: Moment)
    requires |ps| <= |timer| && a.ring.Valid() && b.ring.Valid() && |a.eeprom| >= REC_HI + 2
  {
    && |b.flushes| == |a.flushes| + FlushCount(ps)
    && |b.eeprom| == |a.eeprom| && MagicOk(b.eeprom) == MagicOk(a.eeprom) && Stored(b.eeprom) == Stored(a.eeprom)
    && (stop.Running? && ps != [] ==>
          var sofar := ps[|ps| - 1].left.accepted;
          && b.ring.Avail() + |sofar| < SECTOR_SIZE + |b.accepted|
          && (timer[|ps| - 1] && b.accepted == sofar ==>
                b.ring.Avail() == 0 && !b.pending && Recorded(b.eeprom) == b.log.bytesWritten))
  }

  /** The account read as a statement about the file. */
  lemma Settle(w: Setting, a: Moment, b: Moment, content: seq<Sector>, before: seq<byte>, tries: seq<Attempt>,
               ns: seq<nat>)
    requires Account(w, a, b, before, tries, ns) && LooseInv(a.disk, w.v, w.hi, a.log, content)
    ensures Delivered(w, a, b, content, before, tries, ns)
  {
    hide LogInv, LooseInv, Volume.Fits, StateOk, ReadsBack, Tries, Misses, Kept, Handed, KeptLengths, SafeFlushes,
         Stripped, Ring.Queue;
    LooseTries(a.disk, w.v, w.hi, a.log, content, tries, b.disk, b.log);
    if b.failures == a.failures {
      NothingMissed(tries, ns);
      if LogInv(a.disk, w.v, w.hi, a.log, content) {
        InvReadsBack(b.disk, w.v, w.hi, b.log, content + Kept(tries));
      }
    }
  }

  /** Of what had arrived when the last drain ended less than a chunk is queued. */
  lemma CaughtUp(w: Setting, fired: bool, p: Pass)
    requires PassOk(w, fired, p)
    ensures p.end.ring.Valid() && p.left.accepted <= p.end.accepted
    ensures p.end.ring.Avail() < SECTOR_SIZE + (|p.end.accepted| - |p.left.accepted|)
  {
    hide Ring.Queue, Ring.Avail, Tries, Misses, Pad, FlushOps, Splice, E.Scan, DrainedBytes;
    RingLength(p.left.ring);
    RingLength(p.test.ring);
    RingLength(p.done.ring);
    RingLength(p.end.ring);
  }

  /** No flush touches the configuration in the EEPROM. */
  lemma {:induction false} ConfigKept(w: Setting, timer: seq<bool>, a: Moment, ps: seq<Pass>, b: Moment)
    requires Passes(w, timer, a, ps, b) && |a.eeprom| >= REC_HI + 2
    ensures |b.eeprom| == |a.eeprom| && MagicOk(b.eeprom) == MagicOk(a.eeprom) && Stored(b.eeprom) == Stored(a.eeprom)
    decreases |ps|
  {
    hide PassOk, MagicOk, Stored;
    if ps != [] {
      var n := |ps| - 1;
      PassesPrefix(w, timer, a, ps, b);
      ConfigKept(w, timer, a, ps[..n], ps[n].start);
      PassKeepsConfig(w, timer[n], ps[n]);
    }
  }

  lemma PassKeepsConfig(w: Setting, fired: bool, p: Pass)
    requires PassOk(w, fired, p) && |p.start.eeprom| >= REC_HI + 2
    ensures |p.end.eeprom| == |p.start.eeprom|
    ensures MagicOk(p.end.eeprom) == MagicOk(p.start.eeprom) && Stored(p.end.eeprom) == Stored(p.start.eeprom)
  {
    hide Ring.Queue, Ring.Avail, Tries, Misses, Pad, FlushOps, Splice, E.Scan, DrainedBytes, MagicOk, Stored;
    if Due(p.test) {
      RecordApart(p.test.eeprom, p.done.log.bytesWritten);
    }
  }

  lemma StopsQuietly(w: Setting, m: Moment, fired: bool, more: seq<Attempt>, left: Moment, stop: Stop, b: Moment)
    requires Stops(w, fired, m, more, left, stop, b)
    ensures b.flushes == m.flushes && b.eeprom == m.eeprom
  {
    hide Ring.Queue, Ring.Avail, Tries, Misses, E.Scan, DrainedBytes;
  }

  /** The main loop, one pass for each entry of `timer`, which says whether the idle timer has
      fired since the test before; interrupts come between and inside its steps. It is followed
      to the first complete escape sequence or the first append that has to extend the file;
      card errors are ignored, as the program does.
      Whatever fails, the file stays an open log that holds exactly the sectors that were
      counted, and as many attempts missed as the card reported errors. While every flush
      copied safely, the bytes handed to the card, followed by the queue, are what was
      accepted; and without an error all of them are in the file. Each firing of the timer
      with less than a chunk queued flushes; the loop leaves for command mode exactly when the
      chunks drained and the next one complete a run. */
  method MainLoop(u: UartRing, state: E.EscapeState, log: LogFile, card: SdCard, v: Volume, esc: byte, count: byte,
                  eeprom: array<byte>, timer: seq<bool>, ghost hi: nat, ghost content: seq<Sector>,
                  ghost before: seq<byte>)
    returns (stop: Stop, ghost ps: seq<Pass>, ghost last: Moment, ghost more: seq<Attempt>, ghost left: Moment)
    requires u.Valid() && state.escSeen < E.Needed(count) && eeprom.Length >= REC_HI + 2 && eeprom != u.ring
    requires LooseInv(card.disk, v, hi, log.View(), content) && u.accepted == before + u.View().Queue()
    modifies u`ringHead, u`ringTail, u`line, u`arrived, u`accepted, u`flushes, u.ring, state, log, card, eeprom
    ensures u.Valid() && |ps| <= |timer| && (stop.Running? <==> |ps| == |timer|)
    ensures Passes(Setting(v, hi, esc, count), timer, old(Now(u, state, log, card, eeprom)), ps, last)
    ensures Stops(Setting(v, hi, esc, count), |ps| < |timer| && timer[|ps|], last, more, left, stop,
                  Now(u, state, log, card, eeprom))
    ensures Delivered(Setting(v, hi, esc, count), old(Now(u, state, log, card, eeprom)),
                      Now(u, state, log, card, eeprom), content, before, TriesOf(ps) + more,
                      MeantOf(ps) + Fulls(|more|))
    ensures EscapesRight(Setting(v, hi, esc, count), timer, old(state.escSeen), ps, more, stop,
                         Now(u, state, log, card, eeprom))
    ensures FlushesRight(timer, old(Now(u, state, log, card, eeprom)), ps, stop, Now(u, state, log, card, eeprom))
    ensures stop.Extending? ==> Full(log.View())
  {
    hide Ring.Queue, LooseInv, LogInv, Volume.Fits, StateOk, Passes, Stops, PassOk, ReadsBack, Tries, Misses, Kept,
         Handed, KeptLengths, SafeFlushes, Stripped, Account, Meaning, Fulls, E.Scan, Scanned, Delivered, EscapesRight,
         FlushesRight, TriesOf, MeantOf;
    LooseBasics(card.disk, v, hi, log.View(), content);
    ghost var w, a := Setting(v, hi, esc, count), Now(u, state, log, card, eeprom);
    stop, ps, more, left, last := Running, [], [], a, a;
    NoPasses(w, timer, a);
    for i := 0 to |timer|
      invariant u.Valid() && stop.Running? && state.escSeen < E.Needed(count) && v.Fits(hi) && StateOk(log.View())
      invariant |ps| == i && last == Now(u, state, log, card, eeprom) && Passes(w, timer, a, ps, last)
      invariant eeprom.Length >= REC_HI + 2 && more == []
    {
      ghost var p;
      stop, p, more, left := OnePass(u, state, log, card, v, esc, count, eeprom, timer[i], hi);
      if !stop.Running? {
        break;
      }
      more := [];
      PassesNext(w, timer, a, ps, p);
      ps, last := ps + [p], p.end;
    }
    ghost var b := Now(u, state, log, card, eeprom);
    ghost var fired := |ps| < |timer| && timer[|ps|];
    StopsNowhere(w, fired, b, left);
    LoopEnds(w, timer, a, ps, last, fired, more, left, stop, b, content, before);
    LoopEscapes(w, timer, a, ps, last, fired, more, left, stop, b);
  }

  lemma NoPasses(w: Setting, timer: seq<bool>, a: Moment)
    ensures Passes(w, timer, a, [], a)
  {}

  lemma StopsNowhere(w: Setting, fired: bool, b: Moment, left: Moment)
    ensures Stops(w, fired, b, [], left, Running, b)
  {}

  /** What the loop has done, read from its passes. */
  lemma LoopEnds(w: Setting, timer: seq<bool>, a: Moment, ps: seq<Pass>, last: Moment, fired: bool,
                 more: seq<Attempt>, left: Moment, stop: Stop, b: Moment, content: seq<Sector>, before: seq<byte>)
    requires Passes(w, timer, a, ps, last) && Stops(w, fired, last, more, left, stop, b)
    requires LooseInv(a.disk, w.v, w.hi, a.log, content) && |a.eeprom| >= REC_HI + 2
    requires a.ring.Valid() && b.ring.Valid() && a.accepted == before + a.ring.Queue() && |ps| <= |timer|
    ensures Delivered(w, a, b, content, before, TriesOf(ps) + more, MeantOf(ps) + Fulls(|more|))
    ensures FlushesRight(timer, a, ps, stop, b) && (stop.Extending? ==> Full(b.log))
  {
    hide Ring.Queue, Ring.Avail, LooseInv, LogInv, Passes, PassOk, ReadsBack, Tries, Misses, Kept, Handed, KeptLengths,
         Stripped, Account, Delivered, Fulls, MagicOk, Stored, Recorded, Drains, DrainsDry, Arrives, E.Scan,
         DrainedBytes;
    var tries, ns := TriesOf(ps) + more, MeantOf(ps) + Fulls(|more|);
    PassesAccount(w, timer, a, ps, last, before);
    StopsAccount(w, a, last, fired, more, left, stop, b, before, TriesOf(ps), MeantOf(ps));
    Settle(w, a, b, content, before, tries, ns);
    FlushesCounted(w, timer, a, ps, last);
    ConfigKept(w, timer, a, ps, last);
    StopsQuietly(w, last, fired, more, left, stop, b);
    if stop.Running? && ps != [] {
      LastPass(w, timer, a, ps, last);
    }
  }

  lemma LastPass(w: Setting, timer: seq<bool>, a: Moment, ps: seq<Pass>, b: Moment)
    requires Passes(w, timer, a, ps, b) && ps != [] && |b.eeprom| >= REC_HI + 2
    ensures b.ring.Valid() && b.ring.Avail() + |ps[|ps| - 1].left.accepted| < SECTOR_SIZE + |b.accepted|
    ensures timer[|ps| - 1] && b.accepted == ps[|ps| - 1].left.accepted ==>
              b.ring.Avail() == 0 && !b.pending && Recorded(b.eeprom) == b.log.bytesWritten
  {
    hide Ring.Queue, Ring.Avail, PassOk, Recorded;
    PassesPrefix(w, timer, a, ps, b);
    CaughtUp(w, timer[|ps| - 1], ps[|ps| - 1]);
    if timer[|ps| - 1] && b.accepted == ps[|ps| - 1].left.accepted {
      IdleFlush(w, timer[|ps| - 1], ps[|ps| - 1]);
      RingLength(b.ring);
    }
  }
}
