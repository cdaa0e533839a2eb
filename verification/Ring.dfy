/** The receive ring: one producer (the RX interrupt) and one consumer (the main loop)
    over 1024 cells (uart.c, uart.h). */
module Rings {
  import opened Bytes

  const RING_SIZE := 1024

  datatype Ring = Ring(cells: seq<byte>, head: nat, tail: nat) {
    predicate Valid() {
      |cells| == RING_SIZE && head < RING_SIZE && tail < RING_SIZE
    }

    /** Bytes queued; the mask makes the difference non-negative. */
    function Avail(): (n: nat)
      ensures n < RING_SIZE
    {
      (head - tail) % RING_SIZE
    }

    /** Index of the cell that holds the i-th oldest byte. */
    function Cell(i: nat): (c: nat)
      ensures c < RING_SIZE
    {
      (tail + i) % RING_SIZE
    }

    /** The queued bytes, oldest first. */
    function Queue(): (q: seq<byte>)
      requires Valid()
      ensures |q| == Avail()
      ensures forall i :: 0 <= i < |q| ==> q[i] == cells[Cell(i)]
    {
      seq(Avail(), i requires 0 <= i => cells[Cell(i)])
    }

    /** The interrupt handler: store and advance, or drop when the ring is full. */
    function Rx(b: byte): (r: Ring)
      requires Valid()
      ensures r.Valid()
    {
      var next := (head + 1) % RING_SIZE;
      if next != tail then Ring(cells[head := b], next, tail) else this
    }

    function RxAll(bs: seq<byte>): (r: Ring)
      requires Valid()
      ensures r.Valid()
      decreases |bs|
    {
      if bs == [] then this else Rx(bs[0]).RxAll(bs[1..])
    }

    function Consume(n: nat): (r: Ring)
      requires Valid()
      ensures r.Valid()
    {
      this.(tail := (tail + n) % RING_SIZE)
    }
  }

  // ---- the ring is a queue ------------------------------------------------------------------

  /** One subtraction does what the mask does. */
  lemma Masked(x: int)
    requires -RING_SIZE <= x < 2 * RING_SIZE
    ensures x % RING_SIZE == if x < 0 then x + RING_SIZE else if x < RING_SIZE then x else x - RING_SIZE
  {}

  lemma AvailOf(r: Ring)
    requires r.Valid()
    ensures r.Avail() == if r.tail <= r.head then r.head - r.tail else r.head - r.tail + RING_SIZE
  {
    Masked(r.head - r.tail);
  }

  lemma CellOf(r: Ring, i: nat)
    requires r.Valid() && i < RING_SIZE
    ensures r.Cell(i) == if r.tail + i < RING_SIZE then r.tail + i else r.tail + i - RING_SIZE
  {
    Masked(r.tail + i);
  }

  /** What the handler does to the two indices. */
  lemma RxAvail(r: Ring, b: byte)
    requires r.Valid()
    ensures r.Rx(b).tail == r.tail
    ensures r.Rx(b) == r || r.Rx(b).cells == r.cells[r.head := b]
    ensures r.Rx(b) == r <==> r.Avail() == RING_SIZE - 1
    ensures r.Rx(b) != r ==> r.Rx(b).Avail() == r.Avail() + 1
  {
    hide Ring.Avail;
    AvailOf(r);
    Masked(r.head + 1);
    AvailOf(r.Rx(b));
  }

  lemma RxHead(r: Ring, b: byte)
    requires r.Valid() && r.Avail() < RING_SIZE - 1
    ensures r.Rx(b).head == (r.head + 1) % RING_SIZE
  {
    hide Ring.Avail;
    RxAvail(r, b);
  }

  /** The head is the cell behind the queued ones. */
  lemma HeadCell(r: Ring, i: nat)
    requires r.Valid() && i <= r.Avail()
    ensures r.Cell(i) == r.head <==> i == r.Avail()
  {
    hide Ring.Avail, Ring.Cell;
    AvailOf(r);
    CellOf(r, i);
  }

  lemma RxCell(r: Ring, b: byte, i: nat)
    requires r.Valid() && i < r.Avail()
    ensures r.Rx(b).Cell(i) == r.Cell(i) && r.Rx(b).cells[r.Cell(i)] == r.cells[r.Cell(i)]
  {
    hide Ring.Rx, Ring.Avail;
    RxAvail(r, b);
    HeadCell(r, i);
  }

  /** A byte is accepted exactly when fewer than 1023 are queued; the interrupt touches
      no queued cell either way. */
  lemma RxIsEnqueue(r: Ring, b: byte)
    requires r.Valid()
    ensures r.Rx(b).Queue() == if r.Avail() < RING_SIZE - 1 then r.Queue() + [b] else r.Queue()
    ensures r.Rx(b).tail == r.tail
    ensures forall i :: 0 <= i < r.Avail() ==> r.Rx(b).cells[r.Cell(i)] == r.cells[r.Cell(i)]
  {
    hide Ring.Rx, Ring.Avail, Ring.Cell, Ring.Queue;
    var s := r.Rx(b);
    RxAvail(r, b);
    forall i | 0 <= i < r.Avail() ensures s.Cell(i) == r.Cell(i) && s.cells[r.Cell(i)] == r.cells[r.Cell(i)] {
      RxCell(r, b, i);
    }
    if s != r {
      HeadCell(r, r.Avail());
      SameTail(s, r, r.Avail());
      assert s.Queue()[..r.Avail()] == r.Queue();
      assert s.Queue()[r.Avail()] == b;
      assert s.Queue() == s.Queue()[..r.Avail()] + [s.Queue()[r.Avail()]];
    }
  }

  lemma SameTail(s: Ring, r: Ring, i: nat)
    requires s.tail == r.tail
    ensures s.Cell(i) == r.Cell(i)
  {}

  /** Where the i-th oldest byte lies once n bytes are gone. */
  lemma ConsumeCell(r: Ring, n: nat, i: nat)
    requires r.Valid() && n <= RING_SIZE && i < RING_SIZE && n + i < RING_SIZE
    ensures r.Consume(n).Cell(i) == r.Cell(n + i)
  {
    hide Ring.Cell;
    Masked(r.tail + n);
    CellOf(r.Consume(n), i);
    CellOf(r, n + i);
  }

  lemma ConsumeAvail(r: Ring, n: nat)
    requires r.Valid() && n <= r.Avail()
    ensures r.Consume(n).Avail() == r.Avail() - n
  {
    hide Ring.Avail;
    AvailOf(r);
    Masked(r.tail + n);
    AvailOf(r.Consume(n));
  }

  lemma ConsumeIsDequeue(r: Ring, n: nat)
    requires r.Valid() && n <= r.Avail()
    ensures r.Consume(n).Queue() == r.Queue()[n..]
  {
    hide Ring.Avail, Ring.Cell, Ring.Queue;
    var s := r.Consume(n);
    ConsumeAvail(r, n);
    AvailOf(r);
    forall i | 0 <= i < s.Avail() ensures s.Queue()[i] == r.Queue()[n..][i] {
      ConsumeCell(r, n, i);
    }
  }

  // ---- reading the head in two bytes -----------------------------------------------------------

  /** The head as an 8-bit machine reads it, low byte first, if it is `before` at the first
      load and `after` at the second. */
  function TornRead(before: nat, after: nat): nat { after / 0x100 * 0x100 + before % 0x100 }

  lemma TornHead(head: nat, next: nat)
    requires head < RING_SIZE && next == (head + 1) % RING_SIZE
    ensures TornRead(head, next) == if head % 0x100 == 0xFF then (next + 255) % RING_SIZE else head
  {
    var q, l := head / 0x100, head % 0x100;
    Masked(head + 1);
    Masked(next + 255);
    if l < 0xFF {
      HighAndLow(next, q, l + 1);
    } else if q == 3 {
      HighAndLow(next, 0, 0);
    } else {
      HighAndLow(next, q + 1, 0);
    }
  }

  lemma HighAndLow(x: nat, q: nat, l: nat)
    requires x == q * 0x100 + l && l < 0x100
    ensures x / 0x100 == q && x % 0x100 == l
  {}

  /** A byte received between the two loads: if the low byte of the head carries, the count
      read is 255 too large modulo the ring size; otherwise it is one too small. So the
      program sees more bytes than there are exactly in the first case with room for them. */
  lemma TornHeadIff(r: Ring, b: byte)
    requires r.Valid() && r.Avail() < RING_SIZE - 1
    ensures r.Rx(b).Avail() == r.Avail() + 1
    ensures var seen := Ring(r.cells, TornRead(r.head, r.Rx(b).head), r.tail).Avail();
            && (seen == if r.head % 0x100 == 0xFF then (r.Avail() + 1 + 255) % RING_SIZE else r.Avail())
            && (seen > r.Avail() + 1 <==> r.head % 0x100 == 0xFF && r.Avail() + 1 + 255 < RING_SIZE)
  {
    hide TornRead, Ring.Avail;
    var next := (r.head + 1) % RING_SIZE;
    RxHead(r, b);
    Masked(r.head + 1);
    RxAvail(r, b);
    TornHead(r.head, next);
    Masked(next + 255);
    AvailOf(r);
    AvailOf(Ring(r.cells, TornRead(r.head, next), r.tail));
    Masked(r.Avail() + 1 + 255);
  }

  /** With 257 bytes queued the program may take 512 for a full chunk. */
  lemma TornInput(cells: seq<byte>, b: byte)
    requires |cells| == RING_SIZE
    ensures var r := Ring(cells, 0xFF, 0x3FF);
            && r.Avail() == 256 && r.Rx(b).Avail() == 257
            && Ring(cells, TornRead(0xFF, r.Rx(b).head), 0x3FF).Avail() == 512
  {}

  // ---- spans ----------------------------------------------------------------------------------

  /** Length of the contiguous span that starts at the tail. */
  function LenA(tail: nat, n: nat): (a: nat)
    requires tail < RING_SIZE && n <= RING_SIZE
    ensures a <= n && tail + a <= RING_SIZE && n - a <= tail
  {
    if RING_SIZE - tail >= n then n else RING_SIZE - tail
  }

  /** The two spans of n bytes from the tail, one after the other. */
  function SpanBytes(cells: seq<byte>, tail: nat, n: nat): (s: seq<byte>)
    requires |cells| == RING_SIZE && tail < RING_SIZE && n <= RING_SIZE
    ensures |s| == n
  {
    cells[tail..tail + LenA(tail, n)] + cells[..n - LenA(tail, n)]
  }

  lemma SpanByteAt(cells: seq<byte>, tail: nat, n: nat, i: nat)
    requires |cells| == RING_SIZE && tail < RING_SIZE && i < n <= RING_SIZE
    ensures SpanBytes(cells, tail, n)[i] == cells[(tail + i) % RING_SIZE]
  {}

  /** The spans hold the oldest bytes of the queue, in order. */
  lemma SpansAreQueue(r: Ring, n: nat)
    requires r.Valid() && n <= r.Avail()
    ensures SpanBytes(r.cells, r.tail, n) == r.Queue()[..n]
  {
    hide Ring.Queue, SpanBytes;
    assert r.Avail() < RING_SIZE;
    forall i | 0 <= i < n ensures SpanBytes(r.cells, r.tail, n)[i] == r.Queue()[i] {
      SpanByteAt(r.cells, r.tail, n, i);
    }
  }

  /** Whatever arrives after the tail was read, the spans taken from it stay the oldest
      bytes that were queued then. */
  lemma {:induction false} SpansStable(r: Ring, n: nat, bs: seq<byte>)
    requires r.Valid() && n <= r.Avail()
    ensures r.RxAll(bs).tail == r.tail && r.RxAll(bs).Avail() >= r.Avail()
    ensures SpanBytes(r.RxAll(bs).cells, r.tail, n) == r.Queue()[..n]
    decreases |bs|
  {
    if bs == [] {
      SpansAreQueue(r, n);
    } else {
      RxIsEnqueue(r, bs[0]);
      var s := r.Rx(bs[0]);
      assert |s.Queue()| == s.Avail();
      SpansStable(s, n, bs[1..]);
      assert s.Queue()[..n] == r.Queue()[..n];
    }
  }

  // ---- the interrupt handler and the consumer as they run ----------------------------------------

  /** `a` is what is left of `b` when some of its bytes are dropped. */
  ghost predicate Thinned(a: seq<byte>, b: seq<byte>)
    decreases |b|
  {
    if b == [] then a == []
    else
      var n := |b| - 1;
      Thinned(a, b[..n]) || (a != [] && a[|a| - 1] == b[n] && Thinned(a[..|a| - 1], b[..n]))
  }

  lemma ThinnedNext(a: seq<byte>, b: seq<byte>, x: byte)
    requires Thinned(a, b)
    ensures Thinned(a, b + [x]) && Thinned(a + [x], b + [x])
  {
    assert (b + [x])[..|b|] == b && (a + [x])[..|a|] == a;
  }

  class UartRing {
    const ring: array<byte>
    var ringHead: nat
    var ringTail: nat
    /** Bytes still to arrive on the line; each interrupt takes the next one. */
    var line: seq<byte>
    /** All that the line ever brings. */
    ghost const stream: seq<byte>
    /** Bytes that arrived, and those of them that found room in the ring. */
    ghost var arrived: seq<byte>
    ghost var accepted: seq<byte>
    /** Tail and number of queued bytes at each flush. */
    ghost var flushes: seq<(nat, nat)>

    ghost predicate Valid()
      reads this
    {
      && ring.Length == RING_SIZE && ringHead < RING_SIZE && ringTail < RING_SIZE
      && Honest()
    }

    /** The bytes arrived are those of the line so far, and those accepted are among them. */
    ghost predicate Honest()
      reads this
    {
      arrived + line == stream && Thinned(accepted, arrived)
    }

    ghost function View(): (r: Ring)
      requires Valid()
      reads this, ring
      ensures r.Valid()
    {
      Ring(ring[..], ringHead, ringTail)
    }

    constructor (line: seq<byte>)
      ensures Valid() && fresh(ring) && View().Queue() == [] && this.line == line
      ensures arrived == [] && accepted == [] && flushes == [] && stream == line
    {
      ring := new byte[RING_SIZE](_ => 0);
      ringHead, ringTail, this.line, arrived, accepted, flushes := 0, 0, line, [], [], [];
      stream := line;
    }

    /** ISR(USART_RX_vect). */
    method RxInterrupt()
      requires Valid() && line != []
      modifies this`ringHead, this`line, this`arrived, this`accepted, ring
      ensures Valid() && line == old(line)[1..] && arrived == old(arrived) + [old(line)[0]]
      ensures View() == old(View()).Rx(old(line)[0])
      ensures accepted == if old(View()).Avail() < RING_SIZE - 1 then old(accepted) + [old(line)[0]] else old(accepted)
    {
      var data := line[0];
      ThinnedNext(accepted, arrived, data);
      assert arrived + [data] + line[1..] == arrived + line;
      line := line[1..];
      arrived := arrived + [data];
      var next := (ringHead + 1) % RING_SIZE;
      if next != ringTail {
        ring[ringHead] := data;
        ringHead := next;
        accepted := accepted + [data];
      }
    }

    /** Any number of interrupts, at a point where the main loop can be interrupted:
        `gained` is what they add to the queue. */
    method Interrupts() returns (ghost gained: seq<byte>)
      requires Valid()
      modifies this`ringHead, this`line, this`arrived, this`accepted, ring
      ensures Valid() && accepted == old(accepted) + gained
      ensures View().Queue() == old(View().Queue()) + gained
      ensures |line| + |gained| <= |old(line)|
    {
      hide Ring.Queue, UartRing.Honest;
      gained := [];
      var n: nat :| n <= |line|;
      for i := 0 to n
        invariant Valid() && |line| == |old(line)| - i && |gained| <= i
        invariant accepted == old(accepted) + gained
        invariant View().Queue() == old(View().Queue()) + gained
      {
        ghost var got := OneInterrupt();
        Regroup(old(accepted), gained, got);
        Regroup(old(View().Queue()), gained, got);
        gained := gained + got;
      }
    }

    /** The interrupt, as the queue sees it. */
    method OneInterrupt() returns (ghost got: seq<byte>)
      requires Valid() && line != []
      modifies this`ringHead, this`line, this`arrived, this`accepted, ring
      ensures Valid() && line == old(line)[1..] && |got| <= 1 && accepted == old(accepted) + got
      ensures View().Queue() == old(View().Queue()) + got
    {
      hide Ring.Rx, Ring.Avail, Ring.Cell, Ring.Queue, UartRing.Honest;
      RxIsEnqueue(View(), line[0]);
      got := if View().Avail() < RING_SIZE - 1 then [line[0]] else [];
      RxInterrupt();
    }

    function Available(): (n: nat)
      reads this
    {
      (ringHead - ringTail) % RING_SIZE
    }

    method Read() returns (b: byte)
      requires Valid() && Available() > 0
      modifies this`ringTail
      ensures Valid() && [b] + View().Queue() == old(View().Queue())
    {
      ConsumeIsDequeue(View(), 1);
      b := ring[ringTail];
      ringTail := (ringTail + 1) % RING_SIZE;
    }

    method Consume(n: nat)
      requires Valid() && n <= Available()
      modifies this`ringTail
      ensures Valid() && View() == old(View()).Consume(n) && View().Queue() == old(View().Queue())[n..]
      ensures Available() == old(Available()) - n
    {
      ConsumeAvail(View(), n);
      ConsumeIsDequeue(View(), n);
      ringTail := (ringTail + n) % RING_SIZE;
    }
  }
}
