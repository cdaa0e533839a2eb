/** How fast bytes may arrive before the interrupt handler has to drop one. */
module Overruns {
  import opened Bytes
  import opened Rings
  import opened FlushPads
  import opened DrainMachine

  /** Bytes that may arrive before the next guard check: r during a chunk (up to the check
      that follows it), r0 after a check that found none. */
  function Allowance(s: Sys, r0: nat, r: nat): nat { if s.draining then r else r0 }

  /** Admissible events at that pace. */
  ghost predicate Paced(s: Sys, es: seq<Event>, r0: nat, r: nat)
    decreases |es|
  {
    s.ring.Valid() && (s.phase.Sending? ==> s.phase.snap < RING_SIZE) &&
    (es != [] ==>
      && Enabled(s, es[0])
      && (es[0].Receive? ==> s.window < Allowance(s, r0, r))
      && Paced(Next(s, es[0]), es[1..], r0, r))
  }

  lemma {:induction false} PacedIsAdmissible(s: Sys, es: seq<Event>, r0: nat, r: nat)
    requires Paced(s, es, r0, r)
    ensures Admissible(s, es)
    decreases |es|
  {
    hide Next, Enabled;
    if es != [] {
      PacedIsAdmissible(Next(s, es[0]), es[1..], r0, r);
    }
  }

  // ---- the bound is enough ---------------------------------------------------------------------

  ghost predicate Bounded(s: Sys, r0: nat, r: nat) {
    && s.ring.Valid() && s.dropped == 0 && s.window <= Allowance(s, r0, r)
    && match s.phase
       case Sending(snap, _, _) =>
         snap < RING_SIZE && s.draining && SECTOR_SIZE <= s.ring.Avail() < SECTOR_SIZE + r0 + s.window
       case Idle => if s.draining then s.ring.Avail() < r0 + s.window else s.ring.Avail() < SECTOR_SIZE + s.window
  }

  lemma AvailAfter(q: Ring, b: byte)
    requires q.Valid()
    ensures q.Rx(b).Avail() == if q.Avail() < RING_SIZE - 1 then q.Avail() + 1 else q.Avail()
  {
    hide Ring.Avail, Ring.Rx;
    RxAvail(q, b);
  }

  lemma BoundedStep(s: Sys, e: Event, r0: nat, r: nat)
    requires Bounded(s, r0, r) && r0 + r <= SECTOR_SIZE && Enabled(s, e)
    requires e.Receive? ==> s.window < Allowance(s, r0, r)
    ensures Bounded(Next(s, e), r0, r)
  {
    hide Ring.Queue, SpanBytes, Pad, CopySafe, SpanByte;
    match e {
      case Receive(b) => AvailAfter(s.ring, b);
      case Finish(_) => ConsumeAvail(s.ring, SECTOR_SIZE);
      case Flush(_, _) => ConsumeAvail(s.ring, s.ring.Avail());
      case _ =>
    }
  }

  lemma {:induction false} BoundedRun(s: Sys, es: seq<Event>, r0: nat, r: nat)
    requires Bounded(s, r0, r) && r0 + r <= SECTOR_SIZE && Paced(s, es, r0, r)
    ensures Admissible(s, es) && Bounded(Run(s, es), r0, r)
    decreases |es|
  {
    hide Next, Enabled;
    PacedIsAdmissible(s, es, r0, r);
    if es != [] {
      BoundedStep(s, es[0], r0, r);
      BoundedRun(Next(s, es[0]), es[1..], r0, r);
    }
  }

  /** With r0 == 0 nothing ever arrives. */
  lemma {:induction false} SilentRun(s: Sys, es: seq<Event>, r: nat)
    requires s.ring.Valid() && s.phase.Idle? && !s.draining && s.ring.Avail() == 0 && s.dropped == 0 &&
             Paced(s, es, 0, r)
    ensures Admissible(s, es) && Run(s, es).dropped == 0
    decreases |es|
  {
    hide Ring.Queue, SpanBytes, Pad, CopySafe, SpanByte;
    PacedIsAdmissible(s, es, 0, r);
    if es != [] {
      if es[0].Flush? {
        ConsumeAvail(s.ring, 0);
      }
      SilentRun(Next(s, es[0]), es[1..], r);
    }
  }

  // ---- and no smaller one is -------------------------------------------------------------------

  function Min(a: nat, b: nat): nat { if a < b then a else b }

  function Receives(n: nat): seq<Event> {
    if n == 0 then [] else [Receive(0)] + Receives(n - 1)
  }

  /** n bytes, each followed by a guard check. */
  function Trickle(n: nat): seq<Event> {
    if n == 0 then [] else [Receive(0), Guard] + Trickle(n - 1)
  }

  lemma {:induction false} RunConcat(s: Sys, a: seq<Event>, b: seq<Event>, r0: nat, r: nat)
    requires Paced(s, a, r0, r) && Admissible(s, a) && Paced(Run(s, a), b, r0, r)
    ensures Paced(s, a + b, r0, r) && Admissible(s, a + b) && Admissible(Run(s, a), b)
    ensures Run(s, a + b) == Run(Run(s, a), b)
    decreases |a|
  {
    hide Next, Enabled;
    PacedIsAdmissible(Run(s, a), b, r0, r);
    if a == [] {
      assert a + b == b;
    } else {
      assert (a + b)[0] == a[0] && (a + b)[1..] == a[1..] + b;
      RunConcat(Next(s, a[0]), a[1..], b, r0, r);
    }
  }

  lemma {:induction false} ReceivesRun(s: Sys, n: nat, r0: nat, r: nat)
    requires s.ring.Valid() && (s.phase.Sending? ==> s.phase.snap < RING_SIZE)
    requires s.window + n <= Allowance(s, r0, r)
    ensures Paced(s, Receives(n), r0, r) && Admissible(s, Receives(n))
    ensures var t := Run(s, Receives(n));
            && t.ring.Valid() && t.phase == s.phase && t.draining == s.draining && t.window == s.window + n
            && t.ring.Avail() == Min(s.ring.Avail() + n, RING_SIZE - 1)
            && t.dropped >= s.dropped && (s.ring.Avail() + n >= RING_SIZE ==> t.dropped > s.dropped)
    decreases n
  {
    hide Ring.Queue, SpanBytes, Pad, CopySafe, SpanByte;
    if n > 0 {
      AvailAfter(s.ring, 0);
      var e: Event := Receive(0);
      assert Receives(n)[0] == e && Receives(n)[1..] == Receives(n - 1);
      ReceivesRun(Next(s, e), n - 1, r0, r);
    }
  }

  lemma {:induction false} TrickleRun(s: Sys, n: nat, r0: nat, r: nat)
    requires s.ring.Valid() && s.phase.Idle? && !s.draining && s.window == 0 && r0 >= 1 &&
             s.ring.Avail() + n < SECTOR_SIZE
    ensures Paced(s, Trickle(n), r0, r) && Admissible(s, Trickle(n))
    ensures var t := Run(s, Trickle(n));
            && t.ring.Valid() && t.phase.Idle? && !t.draining && t.window == 0 && t.ring.Avail() == s.ring.Avail() + n
    decreases n
  {
    hide Ring.Avail, Ring.Rx, Ring.Queue, SpanBytes, Pad, CopySafe, SpanByte;
    if n > 0 {
      AvailAfter(s.ring, 0);
      var e: Event := Receive(0);
      var m := Next(s, e);
      var u := Next(m, Guard);
      assert Trickle(n)[0] == e && Trickle(n)[1..] == [Guard] + Trickle(n - 1);
      assert ([Guard] + Trickle(n - 1))[0] == Guard && ([Guard] + Trickle(n - 1))[1..] == Trickle(n - 1);
      TrickleRun(u, n - 1, r0, r);
      assert Paced(m, [Guard] + Trickle(n - 1), r0, r);
    }
  }

  /** A run at the given pace that loses a byte. */
  lemma OverrunWitness(s: Sys, r0: nat, r: nat) returns (es: seq<Event>)
    requires s.ring.Valid() && s.phase.Idle? && !s.draining && s.window == 0 && s.ring.Avail() == 0 && s.dropped == 0
    requires r0 >= 1 && r0 + r > SECTOR_SIZE
    ensures Paced(s, es, r0, r) && Admissible(s, es) && Run(s, es).dropped > 0
  {
    hide Ring.Queue, SpanBytes, Pad, CopySafe, SpanByte, Paced, Admissible, Run;
    var a := Trickle(SECTOR_SIZE - 1);
    TrickleRun(s, SECTOR_SIZE - 1, r0, r);
    var s1 := Run(s, a);
    ReceivesRun(s1, r0, r0, r);
    RunConcat(s, a, Receives(r0), r0, r);
    es := a + Receives(r0);
    var s2 := Run(s, es);
    if SECTOR_SIZE - 1 + r0 < RING_SIZE {
      GuardRun(s2, r0, r);
      var s3 := Run(s2, [Guard]);
      RunConcat(s, es, [Guard], r0, r);
      ReceivesRun(s3, r, r0, r);
      RunConcat(s, es + [Guard], Receives(r), r0, r);
      es := es + [Guard] + Receives(r);
    }
  }

  lemma GuardRun(s: Sys, r0: nat, r: nat)
    requires s.ring.Valid() && s.phase.Idle? && s.ring.Avail() >= SECTOR_SIZE
    ensures Paced(s, [Guard], r0, r) && Admissible(s, [Guard])
    ensures var t := Run(s, [Guard]);
            t == s.(phase := Sending(s.ring.tail, s.ring.Queue()[..SECTOR_SIZE], []), window := 0, draining := true)
  {}

  /** The exact no-overrun bound: from power-up no run at pace (r0, r) ever drops a byte
      if and only if the two allowances fit into one sector together (or nothing can
      arrive at all). */
  lemma NoOverrunIff(cells: seq<byte>, at: nat, r0: nat, r: nat)
    requires |cells| == RING_SIZE && at < RING_SIZE
    ensures (forall es: seq<Event> :: Paced(Initial(cells, at), es, r0, r) ==>
               Admissible(Initial(cells, at), es) && Run(Initial(cells, at), es).dropped == 0) <==>
            r0 == 0 || r0 + r <= SECTOR_SIZE
  {
    hide Paced, Admissible, Run;
    var s := Initial(cells, at);
    if r0 == 0 || r0 + r <= SECTOR_SIZE {
      forall es: seq<Event> | Paced(s, es, r0, r) ensures Admissible(s, es) && Run(s, es).dropped == 0 {
        if r0 == 0 { SilentRun(s, es, r); } else { BoundedRun(s, es, r0, r); }
      }
    } else {
      var es := OverrunWitness(s, r0, r);
    }
  }
}
