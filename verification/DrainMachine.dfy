/** Interrupt and main loop as one state machine: every received byte, every byte sent to
    the card and every decision of the main loop is a step of its own, in any order the
    program admits (log.c:64-174, uart.c:70-81, main.c:205-218). */
module DrainMachine {
  import opened Bytes
  import opened Rings
  import opened FlushPads

  /** What has left the ring: full chunks, and padded partial sectors with the number of
      bytes they carry. `stored` is false when the card reported an error. */
  datatype Drained = Chunk(bytes: seq<byte>, stored: bool) | Padded(pad: Sector, n: nat, stored: bool)

  /** Sending: the tail was read as `snap`, `oldest` was at the front of the queue then,
      and the card has been given `sent` so far, straight from the ring. */
  datatype Phase = Idle | Sending(snap: nat, oldest: seq<byte>, sent: seq<byte>)

  datatype Sys = Sys(
    ring: Ring, phase: Phase, drained: seq<Drained>, accepted: seq<byte>, dropped: nat,
    window: nat,      // bytes received since the last guard check
    draining: bool,   // whether that check found a chunk
    safe: bool)       // whether every flush so far copied without overwriting its own source

  datatype Event =
    | Receive(b: byte)
    | Guard
    | SendByte
    | Finish(stored: bool)
    | Flush(stored: bool, scratch: Sector)

  function Initial(cells: seq<byte>, at: nat): Sys
    requires |cells| == RING_SIZE && at < RING_SIZE
  {
    Sys(Ring(cells, at, at), Idle, [], [], 0, 0, false, true)
  }

  /** Bytes a drained item takes from the queue. */
  function Carried(x: Drained): seq<byte> {
    match x
    case Chunk(bytes, _) => bytes
    case Padded(pad, n, _) => if n <= SECTOR_SIZE then pad[..n] else []
  }

  function AllCarried(xs: seq<Drained>): seq<byte> {
    if xs == [] then [] else AllCarried(xs[..|xs| - 1]) + Carried(xs[|xs| - 1])
  }

  predicate Enabled(s: Sys, e: Event)
    requires s.ring.Valid()
  {
    match e
    case Receive(_) => true
    case Guard => s.phase.Idle?
    case SendByte => s.phase.Sending? && |s.phase.sent| < SECTOR_SIZE
    case Finish(stored) => s.phase.Sending? && (stored ==> |s.phase.sent| == SECTOR_SIZE)
    case Flush(_, _) => s.phase.Idle? && !s.draining && s.ring.Avail() < SECTOR_SIZE
  }

  /** Byte number i of the two spans that start at snap. */
  function SpanByte(cells: seq<byte>, snap: nat, i: nat): byte
    requires |cells| == RING_SIZE && snap < RING_SIZE && i < SECTOR_SIZE
  {
    if i < LenA(snap, SECTOR_SIZE) then cells[snap + i] else cells[i - LenA(snap, SECTOR_SIZE)]
  }

  function Next(s: Sys, e: Event): Sys
    requires s.ring.Valid() && Enabled(s, e) && (s.phase.Sending? ==> s.phase.snap < RING_SIZE)
  {
    match e
    case Receive(b) =>
      var room := s.ring.Avail() < RING_SIZE - 1;
      s.(ring := s.ring.Rx(b),
         accepted := if room then s.accepted + [b] else s.accepted,
         dropped := if room then s.dropped else s.dropped + 1,
         window := s.window + 1)
    case Guard =>
      if s.ring.Avail() >= SECTOR_SIZE
      then s.(phase := Sending(s.ring.tail, s.ring.Queue()[..SECTOR_SIZE], []), window := 0, draining := true)
      else s.(window := 0, draining := false)
    case SendByte =>
      s.(phase := s.phase.(sent := s.phase.sent + [SpanByte(s.ring.cells, s.phase.snap, |s.phase.sent|)]))
    case Finish(stored) =>
      var chunk := if stored then s.phase.sent else SpanBytes(s.ring.cells, s.phase.snap, SECTOR_SIZE);
      s.(ring := s.ring.Consume(SECTOR_SIZE), phase := Idle, drained := s.drained + [Chunk(chunk, stored)])
    case Flush(stored, scratch) =>
      var avail := s.ring.Avail();
      var r := s.ring.Consume(avail);
      s.(safe := s.safe && CopySafe(s.ring.tail, avail),
         ring := r.(cells := scratch + r.cells[SECTOR_SIZE..]),
         drained := if avail == 0 then s.drained
                    else s.drained + [Padded(Pad(s.ring.cells, s.ring.tail, avail), avail, stored)])
  }

  // ---- conservation ---------------------------------------------------------------------------

  ghost predicate Inv(s: Sys) {
    && s.ring.Valid()
    && |s.accepted| == |AllCarried(s.drained)| + s.ring.Avail()
    && (s.safe ==> s.accepted == AllCarried(s.drained) + s.ring.Queue())
    && (s.phase.Sending? ==>
          && s.phase.snap == s.ring.tail && s.ring.Avail() >= SECTOR_SIZE
          && s.phase.oldest == s.ring.Queue()[..SECTOR_SIZE]
          && |s.phase.sent| <= SECTOR_SIZE && s.phase.sent == s.phase.oldest[..|s.phase.sent|])
  }

  /** Every drained item is a full chunk or a sector of queued bytes followed by zeros. */
  ghost predicate WellPadded(x: Drained) {
    match x
    case Chunk(bytes, _) => |bytes| == SECTOR_SIZE
    case Padded(pad, n, _) => 0 < n < SECTOR_SIZE && pad == pad[..n] + Zeros(SECTOR_SIZE - n)
  }

  lemma AllCarriedSnoc(xs: seq<Drained>, x: Drained)
    ensures AllCarried(xs + [x]) == AllCarried(xs) + Carried(x)
  {}

  lemma SendStep(s: Sys)
    requires Inv(s) && Enabled(s, SendByte)
    ensures Inv(Next(s, SendByte))
  {
    hide AllCarried, Pad, CopySafe, Ring.Queue, Ring.Rx, Ring.Consume;
    var i := |s.phase.sent|;
    SpanByteAt(s.ring.cells, s.ring.tail, SECTOR_SIZE, i);
    assert SpanByte(s.ring.cells, s.ring.tail, i) == SpanBytes(s.ring.cells, s.ring.tail, SECTOR_SIZE)[i];
    assert s.phase.oldest[i] == s.ring.Queue()[i];
    assert s.phase.oldest[..i + 1] == s.phase.oldest[..i] + [s.phase.oldest[i]];
  }

  lemma ReceiveStep(s: Sys, b: byte)
    requires Inv(s)
    ensures Inv(Next(s, Receive(b)))
  {
    RxIsEnqueue(s.ring, b);
    var t := Next(s, Receive(b));
    assert |t.ring.Queue()| == t.ring.Avail();
    if s.phase.Sending? {
      assert t.ring.Queue()[..SECTOR_SIZE] == s.ring.Queue()[..SECTOR_SIZE];
    }
  }

  lemma TakeOldest(r: Ring, n: nat)
    requires r.Valid() && n <= r.Avail()
    ensures SpanBytes(r.cells, r.tail, n) == r.Queue()[..n]
    ensures r.Consume(n).Valid() && r.Queue() == r.Queue()[..n] + r.Consume(n).Queue()
  {
    SpansAreQueue(r, n);
    ConsumeIsDequeue(r, n);
  }

  /** The sector handed over is what was oldest when the tail was read. */
  lemma FinishStep(s: Sys, stored: bool)
    requires Inv(s) && Enabled(s, Finish(stored))
    ensures var t := Next(s, Finish(stored));
            Inv(t) && |s.phase.oldest| == SECTOR_SIZE && t.drained == s.drained + [Chunk(s.phase.oldest, stored)]
  {
    hide SpanBytes, Ring.Queue, Ring.Consume, AllCarried, Pad, CopySafe;
    TakeOldest(s.ring, SECTOR_SIZE);
    var oldest := s.phase.oldest;
    assert oldest[..SECTOR_SIZE] == oldest;
    AllCarriedSnoc(s.drained, Chunk(oldest, stored));
    Regroup(AllCarried(s.drained), oldest, s.ring.Consume(SECTOR_SIZE).Queue());
  }

  lemma PadCarries(r: Ring)
    requires r.Valid() && r.Avail() < SECTOR_SIZE
    ensures var pad := Pad(r.cells, r.tail, r.Avail());
            && pad == pad[..r.Avail()] + Zeros(SECTOR_SIZE - r.Avail())
            && (CopySafe(r.tail, r.Avail()) ==>
                  pad[..r.Avail()] == r.Queue() && pad == r.Queue() + Zeros(SECTOR_SIZE - r.Avail()))
  {
    hide CopySafe, SpanBytes, Ring.Queue;
    if CopySafe(r.tail, r.Avail()) {
      SafePadIsWanted(r.cells, r.tail, r.Avail());
      SpansAreQueue(r, r.Avail());
      assert r.Queue()[..r.Avail()] == r.Queue();
    }
  }

  lemma Emptied(r: Ring, cells: seq<byte>)
    requires r.Valid() && |cells| == RING_SIZE
    ensures var e := r.Consume(r.Avail()).(cells := cells); e.Valid() && e.Queue() == []
  {}

  /** A flush moves the whole queue into one padded sector: as many bytes as were queued, and
      exactly those if the copy is safe. */
  lemma FlushStep(s: Sys, stored: bool, scratch: Sector)
    requires Inv(s) && Enabled(s, Flush(stored, scratch))
    ensures var t := Next(s, Flush(stored, scratch));
            var n := s.ring.Avail();
            var pad := Pad(s.ring.cells, s.ring.tail, n);
            && Inv(t) && t.ring.Avail() == 0
            && pad == pad[..n] + Zeros(SECTOR_SIZE - n)
            && (CopySafe(s.ring.tail, n) ==> pad == s.ring.Queue() + Zeros(SECTOR_SIZE - n))
            && t.drained == if n == 0 then s.drained else s.drained + [Padded(pad, n, stored)]
  {
    hide SpanBytes, Ring.Queue, Ring.Consume, AllCarried, Pad, CopySafe;
    var avail := s.ring.Avail();
    PadCarries(s.ring);
    var empty := s.ring.Consume(avail).(cells := scratch + s.ring.Consume(avail).cells[SECTOR_SIZE..]);
    Emptied(s.ring, scratch + s.ring.Consume(avail).cells[SECTOR_SIZE..]);
    assert |empty.Queue()| == empty.Avail();
    AllCarriedSnoc(s.drained, Padded(Pad(s.ring.cells, s.ring.tail, avail), avail, stored));
    if avail == 0 {
      assert s.ring.Queue() == [];
    }
  }

  lemma StepKeepsInv(s: Sys, e: Event)
    requires Inv(s) && Enabled(s, e) && AllPadded(s.drained)
    ensures Inv(Next(s, e)) && AllPadded(Next(s, e).drained)
  {
    hide SpanBytes, Ring.Queue, Ring.Consume, AllCarried, Pad, CopySafe, Ring.Rx, SpanByte;
    match e
    case Receive(b) => ReceiveStep(s, b);
    case Guard =>
    case SendByte => SendStep(s);
    case Finish(stored) => FinishStep(s, stored);
    case Flush(stored, scratch) => FlushStep(s, stored, scratch);
  }

  ghost predicate AllPadded(xs: seq<Drained>) {
    forall i :: 0 <= i < |xs| ==> WellPadded(xs[i])
  }

  /** Events the program can perform one after another. */
  ghost predicate Admissible(s: Sys, es: seq<Event>)
    decreases |es|
  {
    s.ring.Valid() && (s.phase.Sending? ==> s.phase.snap < RING_SIZE) &&
    (es == [] || (Enabled(s, es[0]) && Admissible(Next(s, es[0]), es[1..])))
  }

  ghost function Run(s: Sys, es: seq<Event>): Sys
    requires Admissible(s, es)
    decreases |es|
  {
    if es == [] then s else Run(Next(s, es[0]), es[1..])
  }

  /** Conservation: over every interleaving of interrupts, byte-wise sends, chunk ends
      (stored or lost to a card error) and flushes, as many bytes were accepted as were
      drained or are still in the ring; while every flush copied safely, each accepted byte
      is in exactly one of these places, in order. */
  lemma {:induction false} RunConserves(s: Sys, es: seq<Event>)
    requires Inv(s) && Admissible(s, es) && AllPadded(s.drained)
    ensures Inv(Run(s, es)) && AllPadded(Run(s, es).drained)
    decreases |es|
  {
    hide Next, Enabled;
    if es != [] {
      StepKeepsInv(s, es[0]);
      RunConserves(Next(s, es[0]), es[1..]);
    }
  }

  lemma InitialInv(cells: seq<byte>, at: nat)
    requires |cells| == RING_SIZE && at < RING_SIZE
    ensures Inv(Initial(cells, at))
  {}

  /** From power-up, with the ring empty anywhere: the bytes accepted are those carried by
      the sectors drained, followed by those still queued; in number always, and byte for
      byte while every flush copied safely. */
  lemma PowerUpConserves(cells: seq<byte>, at: nat, es: seq<Event>)
    requires |cells| == RING_SIZE && at < RING_SIZE && Admissible(Initial(cells, at), es)
    ensures var t := Run(Initial(cells, at), es);
            && t.ring.Valid() && AllPadded(t.drained)
            && |t.accepted| == |AllCarried(t.drained)| + t.ring.Avail()
            && (t.safe ==> t.accepted == AllCarried(t.drained) + t.ring.Queue())
  {
    InitialInv(cells, at);
    RunConserves(Initial(cells, at), es);
  }
}
