/** Escape detection across spans and chunks (log.c:41-62). */
module Escapes {
  import opened Bytes

  /** Result of one scan: whether it fired and the run length it leaves behind. */
  datatype Scanned = Scanned(fired: bool, seen: nat)

  /** The scan as the program performs it, from a run of `seen` escape characters. It stops
      at the byte that completes the run. */
  function Scan(buf: seq<byte>, esc: byte, count: nat, seen: nat): Scanned
    decreases |buf|
  {
    if buf == [] then Scanned(false, seen)
    else if buf[0] != esc then Scan(buf[1..], esc, count, 0)
    else if seen + 1 >= count then Scanned(true, seen + 1)
    else Scan(buf[1..], esc, count, seen + 1)
  }

  /** log_state: the run of escape characters lives across calls, and the idle timer's
      interrupt sets the flag. */
  class EscapeState {
    var escSeen: nat
    var flushPending: bool

    constructor ()
      ensures escSeen == 0 && !flushPending
    {
      escSeen, flushPending := 0, false;
    }

    /** scan_escape over len bytes of a buffer. The 8-bit counter cannot wrap: it stays
        below the count, or reaches 1 when the count is 0. */
    method ScanEscape(buf: array<byte>, off: nat, len: nat, esc: byte, count: byte) returns (fired: bool)
      requires off + len <= buf.Length && escSeen < Needed(count)
      modifies this`escSeen
      ensures Scanned(fired, escSeen) == Scan(buf[off..off + len], esc, count, old(escSeen))
      ensures escSeen <= Needed(count) <= 255 && (!fired ==> escSeen < Needed(count))
    {
      var i := 0;
      assert buf[off..off + len] == buf[off + i..off + len];
      while i < len
        invariant 0 <= i <= len && escSeen < Needed(count)
        invariant Scan(buf[off..off + len], esc, count, old(escSeen)) ==
                  Scan(buf[off + i..off + len], esc, count, escSeen)
      {
        ghost var rest := buf[off + i..off + len];
        assert rest[0] == buf[off + i] && rest[1..] == buf[off + i + 1..off + len];
        if buf[off + i] == esc {
          escSeen := (escSeen + 1) % 0x100;
          if escSeen >= count {
            return true;
          }
        } else {
          escSeen := 0;
        }
        i := i + 1;
      }
      fired := false;
    }
  }

  /** The run length that fires: a configured count of 0 acts like 1. */
  function Needed(count: nat): nat { if count == 0 then 1 else count }

  /** Number of escape characters immediately before position p of the stream. */
  function RunLength(s: seq<byte>, esc: byte, p: nat): (n: nat)
    requires p <= |s|
    ensures n <= p
    decreases p
  {
    if p == 0 || s[p - 1] != esc then 0 else RunLength(s, esc, p - 1) + 1
  }

  /** The first p bytes complete a run. */
  predicate Completes(s: seq<byte>, esc: byte, count: nat, p: nat) {
    0 < p <= |s| && RunLength(s, esc, p) >= Needed(count)
  }

  /** The shortest prefix of the stream that completes a run is p bytes long. */
  ghost predicate FirstCompletion(s: seq<byte>, esc: byte, count: nat, p: nat) {
    Completes(s, esc, count, p) && forall q :: 0 <= q < p ==> !Completes(s, esc, count, q)
  }

  lemma {:induction false} RunLengthPrefix(s: seq<byte>, t: seq<byte>, esc: byte, p: nat)
    requires p <= |s|
    ensures RunLength(s + t, esc, p) == RunLength(s, esc, p)
    decreases p
  {
    if p > 0 {
      RunLengthPrefix(s, t, esc, p - 1);
    }
  }

  /** One piece scanned after `done`: it fires exactly when the first completed run of the
      stream ends inside it, and otherwise leaves the run length at its end. */
  lemma {:induction false} ScanPiece(done: seq<byte>, piece: seq<byte>, esc: byte, count: nat)
    requires forall p :: 0 <= p <= |done| ==> !Completes(done, esc, count, p)
    ensures var r := Scan(piece, esc, count, RunLength(done, esc, |done|));
            if r.fired then exists p :: |done| < p <= |done + piece| && FirstCompletion(done + piece, esc, count, p)
            else (forall p :: 0 <= p <= |done + piece| ==> !Completes(done + piece, esc, count, p))
                 && r.seen == RunLength(done + piece, esc, |done + piece|)
    decreases |piece|
  {
    if piece == [] {
      assert done + piece == done;
    } else {
      var next := done + [piece[0]];
      assert next + piece[1..] == done + piece;
      forall p | 0 <= p <= |done| ensures !Completes(next, esc, count, p) {
        RunLengthPrefix(done, [piece[0]], esc, p);
        assert !Completes(done, esc, count, p);
      }
      RunLengthPrefix(done, [piece[0]], esc, |done|);
      RunLengthPrefix(next, piece[1..], esc, |next|);
      if piece[0] == esc && RunLength(done, esc, |done|) + 1 >= Needed(count) {
        forall p | 0 <= p <= |done| ensures !Completes(done + piece, esc, count, p) {
          RunLengthPrefix(done, piece, esc, p);
          assert !Completes(done, esc, count, p);
        }
        assert FirstCompletion(done + piece, esc, count, |next|);
      } else {
        assert !Completes(next, esc, count, |next|);
        ScanPiece(next, piece[1..], esc, count);
      }
    }
  }

  /** A stream that ends in a run of n escape characters, and holds nothing else. */
  function RunOf(esc: byte, n: nat): (s: seq<byte>)
    ensures |s| == n && forall i :: 0 <= i < n ==> s[i] == esc
  {
    seq(n, i requires 0 <= i < n => esc)
  }

  lemma {:induction false} RunOfLength(esc: byte, n: nat, p: nat)
    requires p <= n
    ensures RunLength(RunOf(esc, n), esc, p) == p
    decreases p
  {
    if p > 0 {
      RunOfLength(esc, n, p - 1);
    }
  }

  /** What a scan means that starts with a run under way. */
  lemma ScanMeaning(s: seq<byte>, esc: byte, count: nat, seen: nat)
    requires seen < Needed(count)
    ensures var r, t := Scan(s, esc, count, seen), RunOf(esc, seen) + s;
            if r.fired then exists p :: FirstCompletion(t, esc, count, p)
            else (forall p :: 0 <= p <= |t| ==> !Completes(t, esc, count, p)) && r.seen == RunLength(t, esc, |t|)
  {
    forall p | 0 <= p <= seen ensures !Completes(RunOf(esc, seen), esc, count, p) {
      RunOfLength(esc, seen, p);
    }
    RunOfLength(esc, seen, seen);
    ScanPiece(RunOf(esc, seen), s, esc, count);
  }

  function Flatten(pieces: seq<seq<byte>>): seq<byte> {
    if pieces == [] then [] else Flatten(pieces[..|pieces| - 1]) + pieces[|pieces| - 1]
  }

  /** Scanning piece after piece, as the spans of successive chunks are, until one fires. */
  function ScanAll(pieces: seq<seq<byte>>, esc: byte, count: nat): (r: Scanned)
  {
    if pieces == [] then Scanned(false, 0)
    else
      var r := ScanAll(pieces[..|pieces| - 1], esc, count);
      if r.fired then r else Scan(pieces[|pieces| - 1], esc, count, r.seen)
  }

  lemma {:induction false} ScanAllMeaning(pieces: seq<seq<byte>>, esc: byte, count: nat)
    ensures var r := ScanAll(pieces, esc, count);
            var s := Flatten(pieces);
            if r.fired then exists p :: FirstCompletion(s, esc, count, p)
            else (forall p :: 0 <= p <= |s| ==> !Completes(s, esc, count, p)) && r.seen == RunLength(s, esc, |s|)
  {
    if pieces != [] {
      var front := pieces[..|pieces| - 1];
      var s, last := Flatten(front), pieces[|pieces| - 1];
      ScanAllMeaning(front, esc, count);
      if ScanAll(front, esc, count).fired {
        var p :| FirstCompletion(s, esc, count, p);
        CompletionPrefix(s, last, esc, count, p);
      } else {
        ScanPiece(s, last, esc, count);
      }
    }
  }

  lemma CompletionPrefix(s: seq<byte>, t: seq<byte>, esc: byte, count: nat, p: nat)
    requires FirstCompletion(s, esc, count, p)
    ensures FirstCompletion(s + t, esc, count, p)
  {
    RunLengthPrefix(s, t, esc, p);
    forall q | 0 <= q < p ensures !Completes(s + t, esc, count, q) {
      RunLengthPrefix(s, t, esc, q);
      assert !Completes(s, esc, count, q);
    }
  }

  /** Detection does not depend on how the stream is cut: among successive scans the one
      of `piece` is the first to fire exactly when the first completed run of the whole
      stream ends inside that piece. */
  lemma ChunkingIndependent(before: seq<seq<byte>>, piece: seq<byte>, esc: byte, count: nat)
    ensures !ScanAll(before, esc, count).fired && ScanAll(before + [piece], esc, count).fired <==>
            exists p :: |Flatten(before)| < p <= |Flatten(before + [piece])| &&
                        FirstCompletion(Flatten(before + [piece]), esc, count, p)
  {
    var s := Flatten(before);
    assert (before + [piece])[..|before|] == before;
    assert Flatten(before + [piece]) == s + piece;
    ScanAllMeaning(before, esc, count);
    if ScanAll(before, esc, count).fired {
      var q :| FirstCompletion(s, esc, count, q);
      CompletionPrefix(s, piece, esc, count, q);
      forall p | |s| < p <= |s + piece| ensures !FirstCompletion(s + piece, esc, count, p) {
        assert Completes(s + piece, esc, count, q);
      }
    } else {
      ScanPiece(s, piece, esc, count);
    }
  }

  /** In particular two cuts of one stream agree on whether anything fires at all. */
  lemma CutsAgree(a: seq<seq<byte>>, b: seq<seq<byte>>, esc: byte, count: nat)
    requires Flatten(a) == Flatten(b)
    ensures ScanAll(a, esc, count).fired == ScanAll(b, esc, count).fired
    ensures !ScanAll(a, esc, count).fired ==> ScanAll(a, esc, count) == ScanAll(b, esc, count)
  {
    ScanAllMeaning(a, esc, count);
    ScanAllMeaning(b, esc, count);
    if ScanAll(a, esc, count).fired {
      var p :| FirstCompletion(Flatten(a), esc, count, p);
      assert Completes(Flatten(b), esc, count, p);
    }
    if ScanAll(b, esc, count).fired {
      var p :| FirstCompletion(Flatten(b), esc, count, p);
      assert Completes(Flatten(a), esc, count, p);
    }
  }
}
