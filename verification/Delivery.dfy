/** From the serial line to the file as another reader of the card sees it: the ring
    machine and the log file put together. */
module Delivery {
  import opened Bytes
  import opened SectorDevice
  import opened Volumes
  import opened LogSpec
  import opened LogRefinement
  import opened LogFiles
  import opened LogOpening
  import opened Configs
  import opened LogTries
  import opened LogLoop
  import opened Rings
  import opened FlushPads
  import opened FatTable
  import opened Chains
  import E = Escapes
  import M = DrainMachine

  /** The sector a drained item occupies in the file. */
  function ItemSector(x: M.Drained): Sector {
    match x
    case Chunk(bytes, _) => if |bytes| == SECTOR_SIZE then bytes else ZeroSector()
    case Padded(pad, _, _) => pad
  }

  function SectorsOf(xs: seq<M.Drained>): (cs: seq<Sector>)
    ensures |cs| == |xs| && forall i :: 0 <= i < |xs| ==> cs[i] == ItemSector(xs[i])
  {
    if xs == [] then [] else SectorsOf(xs[..|xs| - 1]) + [ItemSector(xs[|xs| - 1])]
  }

  /** How many bytes of its sector a drained item means. */
  function Meant(x: M.Drained): (n: nat)
    ensures n <= SECTOR_SIZE
  {
    match x
    case Chunk(_, _) => SECTOR_SIZE
    case Padded(_, n, _) => if n <= SECTOR_SIZE then n else 0
  }

  function Lengths(xs: seq<M.Drained>): (ns: seq<nat>)
    ensures |ns| == |xs| && forall i :: 0 <= i < |xs| ==> ns[i] == Meant(xs[i])
  {
    if xs == [] then [] else Lengths(xs[..|xs| - 1]) + [Meant(xs[|xs| - 1])]
  }

  /** The sectors with the padding removed, one after the other. */
  function Stripped(cs: seq<Sector>, ns: seq<nat>): seq<byte>
    requires |ns| <= |cs| && forall i :: 0 <= i < |ns| ==> ns[i] <= SECTOR_SIZE
  {
    if ns == [] then [] else Stripped(cs, ns[..|ns| - 1]) + cs[|ns| - 1][..ns[|ns| - 1]]
  }

  lemma {:induction false} StrippedPrefix(a: seq<Sector>, b: seq<Sector>, ns: seq<nat>)
    requires |ns| <= |a| && a <= b && forall i :: 0 <= i < |ns| ==> ns[i] <= SECTOR_SIZE
    ensures Stripped(a, ns) == Stripped(b, ns)
  {
    if ns != [] {
      StrippedPrefix(a, b, ns[..|ns| - 1]);
    }
  }

  lemma LastStripped(x: M.Drained)
    requires M.WellPadded(x)
    ensures ItemSector(x)[..Meant(x)] == M.Carried(x)
  {}

  /** Stripping the sectors gives back the bytes that were carried. */
  lemma {:induction false} StrippedCarried(xs: seq<M.Drained>)
    requires M.AllPadded(xs)
    ensures Stripped(SectorsOf(xs), Lengths(xs)) == M.AllCarried(xs)
  {
    hide ItemSector, Meant, M.Carried, M.WellPadded;
    if xs != [] {
      var front := xs[..|xs| - 1];
      StrippedCarried(front);
      LastStripped(xs[|xs| - 1]);
      StrippedPrefix(SectorsOf(front), SectorsOf(xs), Lengths(front));
      assert Lengths(xs)[..|front|] == Lengths(front);
    }
  }

  lemma {:induction false} AppendedAppends(cs: seq<Sector>)
    ensures Appended(Appends(cs)) == cs
  {
    if cs != [] {
      AppendedAppends(cs[..|cs| - 1]);
      AppendedSnoc(Appends(cs[..|cs| - 1]), Append(cs[|cs| - 1]));
    }
  }

  lemma {:induction false} AppendedSnoc(ops: seq<FileOp>, op: FileOp)
    ensures Appended(ops + [op]) == Appended(ops) + Appended([op])
    decreases |ops|
  {
    if ops == [] {
      assert [] + [op] == [op];
    } else {
      assert (ops + [op])[0] == ops[0] && (ops + [op])[1..] == ops[1..] + [op];
      AppendedSnoc(ops[1..], op);
    }
  }

  /** Draining from an open log leaves an open log that holds the drained chunks as well. */
  lemma DrainedIntoFile(d: Disk, v: Volume, hi: nat, s: LogState, content: seq<Sector>,
                        cs: seq<Sector>,
                        e: Disk, t: LogState)
    requires LogInv(d, v, hi, s, content) && RunsTo(d, v, hi, s, Appends(cs), e, t)
    ensures LogInv(e, v, hi, t, content + cs) && ReadsBack(e, v, t, t.firstClus, content + cs)
  {
    hide LogInv, Run, CanRun, Appends, ReadsBack;
    RunKeeps(d, v, hi, s, content, Appends(cs));
    AppendedAppends(cs);
    InvReadsBack(e, v, hi, t, content + cs);
  }

  // ---- the ring machine with the card -------------------------------------------------------------

  /** Ring, main loop, card and log file together. */
  datatype Node = Node(sys: M.Sys, disk: Disk, log: LogState)

  /** What an event of the ring machine does to the file, when the card stores every sector. */
  function FileOps(s: M.Sys, e: M.Event): seq<FileOp>
    requires s.ring.Valid() && M.Enabled(s, e)
  {
    match e
    case Finish(_) => if s.phase.Sending? && |s.phase.sent| == SECTOR_SIZE then [Append(s.phase.sent)] else []
    case Flush(_, _) => FlushOps(s.ring.Avail() > 0, Pad(s.ring.cells, s.ring.tail, s.ring.Avail()))
    case _ => []
  }

  /** The event can happen, the card stores what it is given, and the file need not be extended. */
  ghost predicate Possible(n: Node, v: Volume, hi: nat, e: M.Event) {
    && n.sys.ring.Valid() && M.Enabled(n.sys, e) && (n.sys.phase.Sending? ==> n.sys.phase.snap < RING_SIZE)
    && (e.Finish? ==> e.stored && !Full(n.log))
    && (e.Flush? ==> e.stored && (n.sys.ring.Avail() > 0 ==> !Full(n.log)))
    && CanRun(n.disk, v, hi, n.log, FileOps(n.sys, e))
  }

  ghost function NodeNext(n: Node, v: Volume, hi: nat, e: M.Event): Node
    requires Possible(n, v, hi, e)
  {
    var (d, t) := Run(n.disk, v, hi, n.log, FileOps(n.sys, e));
    Node(M.Next(n.sys, e), d, t)
  }

  ghost predicate PossibleRun(n: Node, v: Volume, hi: nat, es: seq<M.Event>)
    decreases |es|
  {
    es == [] || (Possible(n, v, hi, es[0]) && PossibleRun(NodeNext(n, v, hi, es[0]), v, hi, es[1..]))
  }

  ghost function NodeRun(n: Node, v: Volume, hi: nat, es: seq<M.Event>): Node
    requires PossibleRun(n, v, hi, es)
    decreases |es|
  {
    if es == [] then n else NodeRun(NodeNext(n, v, hi, es[0]), v, hi, es[1..])
  }

  /** The file holds exactly the sectors that were drained. */
  ghost predicate NodeInv(n: Node, v: Volume, hi: nat) {
    M.Inv(n.sys) && M.AllPadded(n.sys.drained) && LogInv(n.disk, v, hi, n.log, SectorsOf(n.sys.drained))
  }

  lemma SectorsSnoc(xs: seq<M.Drained>, x: M.Drained)
    ensures SectorsOf(xs + [x]) == SectorsOf(xs) + [ItemSector(x)]
  {
    assert (xs + [x])[..|xs|] == xs;
  }

  lemma FlushAppends(any: bool, sent: Sector)
    ensures Appended(FlushOps(any, sent)) == if any then [sent] else []
  {
    assert Appended([]) == [];
    assert [UpdateSize][1..] == [];
    assert Appended([UpdateSize]) == [];
    assert [Append(sent), UpdateSize][1..] == [UpdateSize];
  }

  /** What an event drains is what it appends to the file. */
  lemma DrainedIsAppended(n: Node, v: Volume, hi: nat, e: M.Event)
    requires M.Inv(n.sys) && M.AllPadded(n.sys.drained) && Possible(n, v, hi, e)
    ensures SectorsOf(M.Next(n.sys, e).drained) == SectorsOf(n.sys.drained) + Appended(FileOps(n.sys, e))
  {
    hide CanRun, SectorsOf, Pad, Ring.Queue, Ring.Consume, M.AllCarried, Ring.Rx;
    var xs := n.sys.drained;
    assert SectorsOf(xs) + [] == SectorsOf(xs);
    match e {
      case Finish(stored) =>
        M.FinishStep(n.sys, stored);
        SectorsSnoc(xs, M.Chunk(n.sys.phase.sent, true));
        assert Appended([Append(n.sys.phase.sent)]) == [n.sys.phase.sent];
      case Flush(stored, scratch) =>
        var avail := n.sys.ring.Avail();
        var pad := Pad(n.sys.ring.cells, n.sys.ring.tail, avail);
        SectorsSnoc(xs, M.Padded(pad, avail, stored));
        FlushAppends(avail > 0, pad);
      case _ =>
    }
  }

  lemma NodeStep(n: Node, v: Volume, hi: nat, e: M.Event)
    requires NodeInv(n, v, hi) && Possible(n, v, hi, e)
    ensures NodeInv(NodeNext(n, v, hi, e), v, hi) && NodeNext(n, v, hi, e).log.firstClus == n.log.firstClus
  {
    hide M.Inv, M.AllPadded, M.Next, M.Enabled, LogInv, CanRun, Run, FileOps, SectorsOf;
    RunOthers(n.disk, v, hi, n.log, SectorsOf(n.sys.drained), FileOps(n.sys, e));
    M.StepKeepsInv(n.sys, e);
    DrainedIsAppended(n, v, hi, e);
    RunKeeps(n.disk, v, hi, n.log, SectorsOf(n.sys.drained), FileOps(n.sys, e));
  }

  lemma {:induction false} NodeRunKeeps(n: Node, v: Volume, hi: nat, es: seq<M.Event>)
    requires NodeInv(n, v, hi) && PossibleRun(n, v, hi, es)
    ensures NodeInv(NodeRun(n, v, hi, es), v, hi) && NodeRun(n, v, hi, es).log.firstClus == n.log.firstClus
    decreases |es|
  {
    hide NodeInv, Possible, NodeNext;
    if es != [] {
      NodeStep(n, v, hi, es[0]);
      NodeRunKeeps(NodeNext(n, v, hi, es[0]), v, hi, es[1..]);
    }
  }

  lemma NodeReads(n: Node, v: Volume, hi: nat)
    requires NodeInv(n, v, hi)
    ensures ReadsBack(n.disk, v, n.log, n.log.firstClus, SectorsOf(n.sys.drained))
    ensures n.log.firstClus <= n.log.lastClus && Clusters(LogChain(n.log))
    ensures |n.sys.drained| <= |FileSectors(n.disk, v, LogChain(n.log))|
    ensures n.sys.ring.Valid()
    ensures n.sys.safe ==>
              n.sys.accepted ==
              Stripped(FileSectors(n.disk, v, LogChain(n.log)), Lengths(n.sys.drained)) + n.sys.ring.Queue()
  {
    hide Times, LogInv, FileSectors, Stripped, SectorsOf, Lengths, M.AllCarried, M.AllPadded, FatView, IsChain;
    var xs := n.sys.drained;
    InvReadsBack(n.disk, v, hi, n.log, SectorsOf(xs));
    StrippedCarried(xs);
    StrippedPrefix(SectorsOf(xs), FileSectors(n.disk, v, LogChain(n.log)), Lengths(xs));
  }

  /** End to end. Power up with an empty ring and a log just created, and let interrupts,
      byte-wise sends, chunk ends and flushes interleave in any way, the card storing every
      sector and the pre-allocation lasting. Then a reader who follows the FAT chain of the
      file in any copy finds exactly the sectors drained and zeros after them; and while every
      flush copied safely, dropping the padding leaves exactly the accepted bytes that are no
      longer in the ring, in order. */
  lemma AcceptedBytesReachFile(
    cells: seq<byte>, at: nat, es: seq<M.Event>,
    d: Disk, v: Volume, hi: nat, k: nat, name: seq<byte>, size: nat, dirLba: nat, dirOffset: nat)
    requires |cells| == RING_SIZE && at < RING_SIZE
    requires |name| == 11 && Creatable(d, v, hi, k, size, dirLba, dirOffset)
    requires ClustersFor(v, size / SECTOR_SIZE) <= |FreeOnDisk(d, v, hi)|
    requires var (b, s) := Create(d, v, hi, name, size, dirLba, dirOffset);
             PossibleRun(Node(M.Initial(cells, at), b, s), v, hi, es)
    ensures var (b, s) := Create(d, v, hi, name, size, dirLba, dirOffset);
            var r := NodeRun(Node(M.Initial(cells, at), b, s), v, hi, es);
            && ReadsBack(r.disk, v, r.log, k, SectorsOf(r.sys.drained))
            && r.log.firstClus <= r.log.lastClus && Clusters(LogChain(r.log))
            && |r.sys.drained| <= |FileSectors(r.disk, v, LogChain(r.log))|
            && r.sys.ring.Valid()
            && (r.sys.safe ==>
                  r.sys.accepted ==
                  Stripped(FileSectors(r.disk, v, LogChain(r.log)), Lengths(r.sys.drained)) + r.sys.ring.Queue())
  {
    hide Create, Times, FileSectors, Stripped, Lengths, LogInv, ReadsBack, PossibleRun, NodeRun, M.Inv, FreeOnDisk,
         ClustersFor;
    M.InitialInv(cells, at);
    CreateSuffix(d, v, hi, k, name, size, dirLba, dirOffset);
    CreateOpensLog(d, v, hi, k, name, size, dirLba, dirOffset);
    var (b, s) := Create(d, v, hi, name, size, dirLba, dirOffset);
    var n := Node(M.Initial(cells, at), b, s);
    assert SectorsOf([]) == [];
    NodeRunKeeps(n, v, hi, es);
    NodeReads(NodeRun(n, v, hi, es), v, hi);
  }
}
