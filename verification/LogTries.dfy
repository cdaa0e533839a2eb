/** File operations as the main loop performs them: it ignores errors and goes on, so a
    sector may be lost or left behind the last one counted. */
module LogTries {
  import opened Bytes
  import opened SectorDevice
  import opened Volumes
  import opened FatTable
  import opened Chains
  import opened LogSpec
  import opened LogRefinement

  /** A run of the log file from disk d and state s ends at (e, t). */
  ghost predicate RunsTo(d: Disk, v: Volume, hi: nat, s: LogState, ops: seq<FileOp>, e: Disk, t: LogState) {
    CanRun(d, v, hi, s, ops) && Run(d, v, hi, s, ops) == (e, t)
  }

  lemma RunsToNothing(d: Disk, v: Volume, hi: nat, s: LogState)
    requires StateOk(s)
    ensures RunsTo(d, v, hi, s, [], d, s)
  {}

  lemma {:induction false} RunsToSnoc(d: Disk, v: Volume, hi: nat, s: LogState, ops: seq<FileOp>, e: Disk,
                                      t: LogState, op: FileOp)
    requires RunsTo(d, v, hi, s, ops, e, t) && StateOk(t) && Enabled(e, v, hi, t, op)
    requires StateOk(Step(e, v, hi, t, op).1)
    ensures RunsTo(d, v, hi, s, ops + [op], Step(e, v, hi, t, op).0, Step(e, v, hi, t, op).1)
    decreases |ops|
  {
    hide Enabled, Step;
    if ops == [] {
      assert ops + [op] == [op] && [op][1..] == [];
      var (x, y) := Step(d, v, hi, s, op);
      assert CanRun(x, v, hi, y, []) && Run(x, v, hi, y, []) == (x, y);
      assert CanRun(d, v, hi, s, [op]) && Run(d, v, hi, s, [op]) == (x, y);
    } else {
      assert (ops + [op])[0] == ops[0] && (ops + [op])[1..] == ops[1..] + [op];
      var (x, y) := Step(d, v, hi, s, ops[0]);
      RunsToSnoc(x, v, hi, y, ops[1..], e, t, op);
    }
  }

  lemma StepStateOk(d: Disk, v: Volume, hi: nat, s: LogState, op: FileOp)
    requires StateOk(s) && Enabled(d, v, hi, s, op)
    ensures StateOk(Step(d, v, hi, s, op).1)
  {
    hide FreeOnDisk, WithCluster, ClusToLba, Volume.Fits;
  }

  // ---- attempts -----------------------------------------------------------------------------

  /** An operation the program tried, and whether the card reported success. */
  datatype Attempt = Attempt(op: FileOp, done: bool)

  /** One attempt, within the clusters of the file. A failed one may have written its
      sector, but the program does not count it. */
  ghost predicate TryStep(d: Disk, v: Volume, hi: nat, s: LogState, a: Attempt, e: Disk, t: LogState) {
    && StateOk(s) && v.Fits(hi) && (a.op.Append? ==> !Full(s))
    && if a.done then (e, t) == Step(d, v, hi, s, a.op)
       else t == s && (e == d || e == Step(d, v, hi, s, a.op).0)
  }

  ghost predicate Tries(d: Disk, v: Volume, hi: nat, s: LogState, tries: seq<Attempt>, e: Disk, t: LogState)
    decreases |tries|
  {
    if tries == [] then e == d && t == s
    else
      var n := |tries| - 1;
      exists m: Disk, u: LogState :: Tries(d, v, hi, s, tries[..n], m, u) && TryStep(m, v, hi, u, tries[n], e, t)
  }

  lemma TriesSnoc(d: Disk, v: Volume, hi: nat, s: LogState, tries: seq<Attempt>, m: Disk,
                  u: LogState, a: Attempt, e: Disk, t: LogState)
    requires Tries(d, v, hi, s, tries, m, u) && TryStep(m, v, hi, u, a, e, t)
    ensures Tries(d, v, hi, s, tries + [a], e, t)
  {
    hide TryStep;
    assert (tries + [a])[..|tries|] == tries;
  }

  lemma {:induction false} TriesJoin(d: Disk, v: Volume, hi: nat, s: LogState, a: seq<Attempt>, m: Disk, u: LogState,
                                     b: seq<Attempt>, e: Disk, t: LogState)
    requires Tries(d, v, hi, s, a, m, u) && Tries(m, v, hi, u, b, e, t)
    ensures Tries(d, v, hi, s, a + b, e, t)
    decreases |b|
  {
    hide TryStep;
    if b == [] {
      assert a + b == a;
    } else {
      var n := |b| - 1;
      var x, y :| Tries(m, v, hi, u, b[..n], x, y) && TryStep(x, v, hi, y, b[n], e, t);
      TriesJoin(d, v, hi, s, a, m, u, b[..n], x, y);
      TriesSnoc(d, v, hi, s, a + b[..n], x, y, b[n], e, t);
      assert a + b[..n] + [b[n]] == a + b;
    }
  }

  function Misses(tries: seq<Attempt>): nat {
    if tries == [] then 0 else Misses(tries[..|tries| - 1]) + (if tries[|tries| - 1].done then 0 else 1)
  }

  lemma MissesSnoc(tries: seq<Attempt>, a: Attempt)
    ensures Misses(tries + [a]) == Misses(tries) + (if a.done then 0 else 1)
  {
    assert (tries + [a])[..|tries|] == tries;
  }

  lemma {:induction false} MissesJoin(a: seq<Attempt>, b: seq<Attempt>)
    ensures Misses(a + b) == Misses(a) + Misses(b)
    decreases |b|
  {
    if b == [] {
      assert a + b == a;
    } else {
      MissesJoin(a, b[..|b| - 1]);
      assert (a + b)[..|a + b| - 1] == a + b[..|b| - 1];
    }
  }

  function Ops(tries: seq<Attempt>): (ops: seq<FileOp>)
    ensures |ops| == |tries| && forall i :: 0 <= i < |ops| ==> ops[i] == tries[i].op
  {
    seq(|tries|, i requires 0 <= i < |tries| => tries[i].op)
  }

  /** Without a miss the attempts are a run. */
  lemma {:induction false} NoMissIsRun(d: Disk, v: Volume, hi: nat, s: LogState, tries: seq<Attempt>, e: Disk,
                                       t: LogState)
    requires Tries(d, v, hi, s, tries, e, t) && Misses(tries) == 0 && StateOk(s)
    ensures RunsTo(d, v, hi, s, Ops(tries), e, t) && StateOk(t)
    decreases |tries|
  {
    hide Step, Volume.Fits, StateOk, RunsTo;
    if tries == [] {
      RunsToNothing(d, v, hi, s);
      assert Ops(tries) == [];
    } else {
      var n := |tries| - 1;
      var m, u :| Tries(d, v, hi, s, tries[..n], m, u) && TryStep(m, v, hi, u, tries[n], e, t);
      NoMissIsRun(d, v, hi, s, tries[..n], m, u);
      StepStateOk(m, v, hi, u, tries[n].op);
      RunsToSnoc(d, v, hi, s, Ops(tries[..n]), m, u, tries[n].op);
      assert Ops(tries[..n]) + [tries[n].op] == Ops(tries);
    }
  }

  /** The sectors the file has gained. */
  function Kept(tries: seq<Attempt>): seq<Sector> {
    if tries == [] then []
    else
      var a := tries[|tries| - 1];
      Kept(tries[..|tries| - 1]) + if a.done && a.op.Append? then [a.op.data] else []
  }

  lemma {:induction false} KeptJoin(a: seq<Attempt>, b: seq<Attempt>)
    ensures Kept(a + b) == Kept(a) + Kept(b)
    decreases |b|
  {
    if b == [] {
      assert a + b == a;
    } else {
      KeptJoin(a, b[..|b| - 1]);
      assert (a + b)[..|a + b| - 1] == a + b[..|b| - 1];
    }
  }

  // ---- what errors leave of the invariant ---------------------------------------------------

  function Cleared(d: Disk, s: LogState): Disk { d[s.curLba := ZeroSector()] }

  /** The log invariant, except that the sector at the write position may hold a sector that
      was not counted. */
  ghost predicate LooseInv(d: Disk, v: Volume, hi: nat, s: LogState, content: seq<Sector>) {
    LogInv(d, v, hi, s, content) || (!Full(s) && LogInv(Cleared(d, s), v, hi, s, content))
  }

  lemma InvBasics(d: Disk, v: Volume, hi: nat, s: LogState, content: seq<Sector>)
    requires LogInv(d, v, hi, s, content)
    ensures v.Fits(hi) && StateOk(s) && 2 <= s.firstClus <= s.lastClus
    ensures v.dataLba <= s.dirLba < s.curLba && s.curLba == ClusterStart(v, s.firstClus) + |content|
    ensures s.endLba <= ClusterStart(v, s.firstClus) + Capacity(v, s)
  {
    hide Times, IsChain, FatView, Holds, CopiesAgree, FreeSuffix;
    assert ClusterStart(v, s.firstClus) >= v.dataLba;
  }

  /** Clearing a sector that is clear already. */
  lemma ClearKeeps(d: Disk, v: Volume, hi: nat, s: LogState, content: seq<Sector>)
    requires LogInv(d, v, hi, s, content) && !Full(s)
    ensures LogInv(Cleared(d, s), v, hi, s, content)
  {
    hide FatPart, Times;
    InvBasics(d, v, hi, s, content);
    DataWriteFat(d, v, hi, s, s, s.curLba, ZeroSector());
    var start := ClusterStart(v, s.firstClus);
    forall l: nat | start <= l < start + Capacity(v, s)
      ensures Get(Cleared(d, s), l) == if l - start < |content| then content[l - start] else ZeroSector()
    {
      GetUpdate(d, s.curLba, ZeroSector(), l);
    }
  }

  lemma ClearedPut(d: Disk, s: LogState, data: Sector)
    ensures Put(Cleared(d, s), s, data) == Put(d, s, data)
    ensures Cleared(Put(d, s, data).0, s) == Cleared(d, s)
  {
    assert d[s.curLba := ZeroSector()][s.curLba := data] == d[s.curLba := data];
    assert d[s.curLba := data][s.curLba := ZeroSector()] == d[s.curLba := ZeroSector()];
  }

  lemma ClearedUpdate(d: Disk, v: Volume, hi: nat, s: LogState)
    requires StateOk(s) && v.Fits(hi) && s.dirLba != s.curLba
    ensures Cleared(Step(d, v, hi, s, UpdateSize).0, s) == Step(Cleared(d, s), v, hi, s, UpdateSize).0
  {
    hide WithSize, Volume.Fits;
    var data := WithSize(Get(d, s.dirLba), s.dirOffset, s.bytesWritten);
    assert d[s.dirLba := data][s.curLba := ZeroSector()] == d[s.curLba := ZeroSector()][s.dirLba := data];
  }

  lemma LooseAppend(d: Disk, v: Volume, hi: nat, s: LogState, content: seq<Sector>, data: Sector,
                    done: bool, e: Disk, t: LogState)
    requires LooseInv(d, v, hi, s, content) && TryStep(d, v, hi, s, Attempt(Append(data), done), e, t)
    ensures LooseInv(e, v, hi, t, if done then content + [data] else content)
    ensures done ==> LogInv(e, v, hi, t, content + [data])
  {
    hide LogInv, Put, Cleared;
    assert Appended([Append(data)]) == [data];
    ClearedPut(d, s, data);
    if LogInv(d, v, hi, s, content) {
      ClearKeeps(d, v, hi, s, content);
    }
    StepKeeps(Cleared(d, s), v, hi, s, content, Append(data));
  }

  lemma LooseUpdate(d: Disk, v: Volume, hi: nat, s: LogState, content: seq<Sector>,
                    done: bool, e: Disk, t: LogState)
    requires LooseInv(d, v, hi, s, content) && TryStep(d, v, hi, s, Attempt(UpdateSize, done), e, t)
    ensures LooseInv(e, v, hi, t, content)
    ensures LogInv(d, v, hi, s, content) ==> LogInv(e, v, hi, t, content)
  {
    hide LogInv, Cleared, WithSize;
    if LogInv(d, v, hi, s, content) {
      UpdateSizeKeeps(d, v, hi, s, content);
    } else {
      InvBasics(Cleared(d, s), v, hi, s, content);
      UpdateSizeKeeps(Cleared(d, s), v, hi, s, content);
      ClearedUpdate(d, v, hi, s);
    }
  }

  /** Whatever fails, the file holds exactly the sectors that were counted. */
  lemma {:induction false} LooseTries(d: Disk, v: Volume, hi: nat, s: LogState, content: seq<Sector>,
                                      tries: seq<Attempt>, e: Disk, t: LogState)
    requires LooseInv(d, v, hi, s, content) && Tries(d, v, hi, s, tries, e, t)
    ensures LooseInv(e, v, hi, t, content + Kept(tries))
    ensures LogInv(d, v, hi, s, content) && Misses(tries) == 0 ==> LogInv(e, v, hi, t, content + Kept(tries))
    decreases |tries|
  {
    hide LooseInv, LogInv, TryStep;
    if tries == [] {
      assert content + Kept(tries) == content;
    } else {
      var n := |tries| - 1;
      var m, u :| Tries(d, v, hi, s, tries[..n], m, u) && TryStep(m, v, hi, u, tries[n], e, t);
      LooseTries(d, v, hi, s, content, tries[..n], m, u);
      var sofar := content + Kept(tries[..n]);
      match tries[n].op {
        case Append(data) =>
          LooseAppend(m, v, hi, u, sofar, data, tries[n].done, e, t);
          assert sofar + [data] == content + (Kept(tries[..n]) + [data]);
          assert sofar == content + (Kept(tries[..n]) + []);
        case UpdateSize =>
          LooseUpdate(m, v, hi, u, sofar, tries[n].done, e, t);
          assert sofar == content + (Kept(tries[..n]) + []);
      }
    }
  }

  /** What a reader who follows the chain finds in any case: the sectors counted, perhaps
      one that was not, and zeros. */
  lemma LooseReads(d: Disk, v: Volume, hi: nat, s: LogState, content: seq<Sector>)
    requires LooseInv(d, v, hi, s, content)
    ensures 2 <= s.firstClus <= s.lastClus && Clusters(LogChain(s))
    ensures forall f: nat :: f < v.numFats ==> IsChain(FatView(d, v, f), LogChain(s))
    ensures var sectors := FileSectors(d, v, LogChain(s));
            && |content| <= |sectors| && sectors[..|content|] == content
            && forall i :: |content| < i < |sectors| ==> sectors[i] == ZeroSector()
  {
    hide LogInv, FatView, IsChain, ChainLbas, Times, ReadsBack, Cleared;
    if LogInv(d, v, hi, s, content) {
      InvBasics(d, v, hi, s, content);
      InvReadsBack(d, v, hi, s, content);
      ReadsPlainly(d, v, s, content);
    } else {
      InvReadsBack(Cleared(d, s), v, hi, s, content);
      ReadsPlainly(Cleared(d, s), v, s, content);
      InvBasics(Cleared(d, s), v, hi, s, content);
      UnclearedReads(d, v, hi, s, content);
    }
  }

  lemma ReadsPlainly(d: Disk, v: Volume, s: LogState, content: seq<Sector>)
    requires ReadsBack(d, v, s, s.firstClus, content)
    ensures s.firstClus <= s.lastClus && Clusters(LogChain(s))
    ensures forall f: nat :: f < v.numFats ==> IsChain(FatView(d, v, f), LogChain(s))
    ensures var sectors := FileSectors(d, v, LogChain(s));
            && |content| <= |sectors| && sectors[..|content|] == content
            && forall i :: |content| < i < |sectors| ==> sectors[i] == ZeroSector()
  {
    hide FatView, IsChain, ChainLbas, Times, FileSectors;
  }

  lemma UnclearedReads(d: Disk, v: Volume, hi: nat, s: LogState, content: seq<Sector>)
    requires LogInv(Cleared(d, s), v, hi, s, content) && 2 <= s.firstClus <= s.lastClus && Clusters(LogChain(s))
    requires s.curLba == ClusterStart(v, s.firstClus) + |content| && v.Layout() && s.curLba >= v.dataLba
    ensures forall f: nat :: f < v.numFats ==> FatView(d, v, f) == FatView(Cleared(d, s), v, f)
    ensures var a, b := FileSectors(d, v, LogChain(s)), FileSectors(Cleared(d, s), v, LogChain(s));
            |a| == |b| && forall i :: 0 <= i < |a| && i != |content| ==> a[i] == b[i]
  {
    hide LogInv, FatView, IsChain, ChainLbas, Times;
    var e, lbas := Cleared(d, s), ChainLbas(v, LogChain(s));
    forall l: nat | l != s.curLba ensures Get(e, l) == Get(d, l) {
      GetUpdate(d, s.curLba, ZeroSector(), l);
    }
    SameFat(d, e, v);
    forall i | 0 <= i < |lbas| && i != |content| ensures Get(d, lbas[i]) == Get(e, lbas[i]) {
      LogChainLbas(v, s, i);
    }
  }
}
