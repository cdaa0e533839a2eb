/** Cluster chains of a FAT, the free list, and what linking clusters does to both. */
module Chains {
  import opened FatTable

  /** Entry of a cluster marked as defective. */
  const BAD := 0x0FFF_FFF7

  ghost predicate IsChain(fat: seq<nat>, p: seq<nat>) {
    && |p| > 0
    && (forall i :: 0 <= i < |p| ==> 2 <= p[i] < |fat| && p[i] < EOC_MIN)
    && (forall i :: 0 <= i < |p| - 1 ==> fat[p[i]] == p[i + 1])
    && fat[p[|p| - 1]] >= EOC_MIN
  }

  ghost predicate Increasing(p: seq<nat>) {
    forall i, j :: 0 <= i < j < |p| ==> p[i] < p[j]
  }

  ghost predicate NoDup(p: seq<nat>) {
    forall i, j :: 0 <= i < j < |p| ==> p[i] != p[j]
  }

  ghost predicate Disjoint(p: seq<nat>, q: seq<nat>) {
    forall i, j :: 0 <= i < |p| && 0 <= j < |q| ==> p[i] != q[j]
  }

  ghost predicate AllFree(fat: seq<nat>, p: seq<nat>) {
    forall i :: 0 <= i < |p| ==> 2 <= p[i] < |fat| && p[i] < EOC_MIN && fat[p[i]] == 0
  }

  /** Every allocated cluster below hi lies on exactly one of the chains. */
  ghost predicate WellFormed(fat: seq<nat>, hi: nat, chains: seq<seq<nat>>) {
    && hi <= |fat|
    && (forall k :: 0 <= k < |chains| ==> IsChain(fat, chains[k]))
    && (forall j, k :: 0 <= j < k < |chains| ==> Disjoint(chains[j], chains[k]))
    && (forall c: nat :: 2 <= c < hi && fat[c] != 0 && fat[c] != BAD ==> OnSome(chains, c))
  }

  ghost predicate OnSome(chains: seq<seq<nat>>, c: nat) {
    exists k :: 0 <= k < |chains| && c in chains[k]
  }

  // ---- chains are determined by their start ---------------------------------

  /** Two chains that meet share the rest. */
  lemma {:induction false} ChainsMerge(fat: seq<nat>, p: seq<nat>, i: nat, q: seq<nat>, j: nat)
    requires IsChain(fat, p) && IsChain(fat, q) && i < |p| && j < |q| && p[i] == q[j]
    ensures p[i..] == q[j..]
    decreases |p| - i
  {
    assert j < |q| - 1 ==> fat[q[j]] == q[j + 1];
    if i < |p| - 1 {
      assert fat[p[i]] == p[i + 1];
      assert j < |q| - 1;
      ChainsMerge(fat, p, i + 1, q, j + 1);
      assert p[i..] == [p[i]] + p[i + 1..] && q[j..] == [q[j]] + q[j + 1..];
    }
  }

  lemma ChainUnique(fat: seq<nat>, p: seq<nat>, q: seq<nat>)
    requires IsChain(fat, p) && IsChain(fat, q) && p[0] == q[0]
    ensures p == q
  {
    ChainsMerge(fat, p, 0, q, 0);
  }

  /** A terminated chain never meets itself. */
  lemma ChainAcyclic(fat: seq<nat>, p: seq<nat>)
    requires IsChain(fat, p)
    ensures NoDup(p)
  {
    forall i, j | 0 <= i < j < |p| ensures p[i] != p[j] {
      if p[i] == p[j] {
        ChainsMerge(fat, p, i, p, j);
      }
    }
  }

  // ---- the free list ----------------------------------------------------------

  /** Free clusters in [lo, hi), lowest first. */
  function FreeList(fat: seq<nat>, lo: nat, hi: nat): (p: seq<nat>)
    requires 2 <= lo && hi <= |fat| && hi < EOC_MIN
    decreases hi - lo
  {
    if lo >= hi then [] else if fat[lo] == 0 then [lo] + FreeList(fat, lo + 1, hi) else FreeList(fat, lo + 1, hi)
  }

  lemma {:induction false} FreeListSound(fat: seq<nat>, lo: nat, hi: nat)
    requires 2 <= lo && hi <= |fat| && hi < EOC_MIN
    ensures AllFree(fat, FreeList(fat, lo, hi)) && Increasing(FreeList(fat, lo, hi))
    ensures forall i :: 0 <= i < |FreeList(fat, lo, hi)| ==> lo <= FreeList(fat, lo, hi)[i] < hi
    decreases hi - lo
  {
    if lo < hi {
      FreeListSound(fat, lo + 1, hi);
    }
  }

  /** No free cluster is missing from the list. */
  lemma {:induction false} FreeListComplete(fat: seq<nat>, lo: nat, hi: nat, c: nat)
    requires 2 <= lo <= c < hi <= |fat| && hi < EOC_MIN && fat[c] == 0
    ensures c in FreeList(fat, lo, hi)
    decreases hi - lo
  {
    if lo < c {
      FreeListComplete(fat, lo + 1, hi, c);
    }
  }

  lemma {:induction false} FreeListSame(fat: seq<nat>, g: seq<nat>, lo: nat, hi: nat)
    requires 2 <= lo && hi <= |fat| && |fat| == |g| && hi < EOC_MIN
    requires forall c :: lo <= c < hi ==> (fat[c] == 0 <==> g[c] == 0)
    ensures FreeList(fat, lo, hi) == FreeList(g, lo, hi)
    decreases hi - lo
  {
    if lo < hi {
      FreeListSame(fat, g, lo + 1, hi);
    }
  }

  /** Using up the first n clusters of the list leaves the rest of it. */
  lemma {:induction false} FreeListTake(fat: seq<nat>, g: seq<nat>, lo: nat, hi: nat, taken: seq<nat>)
    requires 2 <= lo && hi <= |fat| && |fat| == |g| && hi < EOC_MIN
    requires taken <= FreeList(fat, lo, hi)
    requires forall c :: lo <= c < hi ==> (g[c] == 0 <==> fat[c] == 0 && c !in taken)
    ensures FreeList(g, lo, hi) == FreeList(fat, lo, hi)[|taken|..]
    decreases hi - lo
  {
    if lo < hi {
      if fat[lo] != 0 {
        FreeListTake(fat, g, lo + 1, hi, taken);
      } else if taken == [] {
        FreeListSame(fat, g, lo, hi);
      } else {
        assert taken == [lo] + taken[1..];
        FreeListTake(fat, g, lo + 1, hi, taken[1..]);
      }
    }
  }

  // ---- linking clusters ---------------------------------------------------------

  /** The FAT once every cluster of p but the last points at its successor. */
  function LinkPrefix(fat: seq<nat>, p: seq<nat>): (g: seq<nat>)
    requires forall i :: 0 <= i < |p| ==> p[i] < |fat|
    ensures |g| == |fat|
  {
    if |p| <= 1 then fat else LinkPrefix(fat, p[..|p| - 1])[p[|p| - 2] := p[|p| - 1]]
  }

  function Linked(fat: seq<nat>, p: seq<nat>): (g: seq<nat>)
    requires |p| > 0 && forall i :: 0 <= i < |p| ==> p[i] < |fat|
    ensures |g| == |fat|
  {
    LinkPrefix(fat, p)[p[|p| - 1] := EOC]
  }

  lemma {:induction false} LinkPrefixAt(fat: seq<nat>, p: seq<nat>)
    requires NoDup(p) && forall i :: 0 <= i < |p| ==> p[i] < |fat|
    ensures forall i :: 0 <= i < |p| - 1 ==> LinkPrefix(fat, p)[p[i]] == p[i + 1]
    ensures forall c :: 0 <= c < |fat| && (forall i :: 0 <= i < |p| - 1 ==> p[i] != c) ==>
            LinkPrefix(fat, p)[c] == fat[c]
  {
    if |p| > 1 {
      var q := p[..|p| - 1];
      LinkPrefixAt(fat, q);
      forall c | 0 <= c < |fat| && (forall i :: 0 <= i < |p| - 1 ==> p[i] != c)
        ensures LinkPrefix(fat, p)[c] == fat[c]
      {
        assert forall i :: 0 <= i < |q| ==> q[i] == p[i];
      }
    }
  }

  lemma LinkedAt(fat: seq<nat>, p: seq<nat>)
    requires |p| > 0 && NoDup(p) && forall i :: 0 <= i < |p| ==> p[i] < |fat|
    ensures forall i :: 0 <= i < |p| - 1 ==> Linked(fat, p)[p[i]] == p[i + 1]
    ensures Linked(fat, p)[p[|p| - 1]] == EOC
    ensures forall c :: 0 <= c < |fat| && c !in p ==> Linked(fat, p)[c] == fat[c]
  {
    LinkPrefixAt(fat, p);
  }

  /** Changing free entries only breaks no chain. */
  lemma ChainKept(fat: seq<nat>, g: seq<nat>, q: seq<nat>)
    requires |g| == |fat| && IsChain(fat, q)
    requires forall c :: 0 <= c < |fat| && fat[c] != 0 ==> g[c] == fat[c]
    ensures IsChain(g, q)
  {}

  lemma LinkedIsChain(g: seq<nat>, hi: nat, p: seq<nat>)
    requires hi <= |g| && hi < EOC_MIN && |p| > 0 && forall i :: 0 <= i < |p| ==> 2 <= p[i] < hi
    requires forall i :: 0 <= i < |p| - 1 ==> g[p[i]] == p[i + 1]
    requires g[p[|p| - 1]] == EOC
    ensures IsChain(g, p) && forall i :: 0 <= i < |p| ==> g[p[i]] != 0
  {
    forall i | 0 <= i < |p| ensures g[p[i]] != 0 {
      if i < |p| - 1 { assert g[p[i]] == p[i + 1]; }
    }
  }

  /** Allocation in one FAT copy: the clusters taken form a terminated chain, every
      other entry is unchanged and the free list loses exactly those clusters. */
  lemma AllocationEffect(fat: seq<nat>, hi: nat, n: nat)
    requires hi <= |fat| && hi < EOC_MIN && 0 < n <= |FreeList(fat, 2, hi)|
    ensures var p := FreeList(fat, 2, hi)[..n];
            && (forall i :: 0 <= i < |p| ==> p[i] < hi)
            && IsChain(Linked(fat, p), p)
            && (forall c :: 0 <= c < |fat| && c !in p ==> Linked(fat, p)[c] == fat[c])
            && (forall q :: IsChain(fat, q) ==> IsChain(Linked(fat, p), q) && Disjoint(p, q))
            && FreeList(Linked(fat, p), 2, hi) == FreeList(fat, 2, hi)[n..]
  {
    hide FreeList, Linked, IsChain, Disjoint;
    FreeListSound(fat, 2, hi);
    var p := FreeList(fat, 2, hi)[..n];
    var g := Linked(fat, p);
    LinkedAt(fat, p);
    LinkedIsChain(g, hi, p);
    FreeListTake(fat, g, 2, hi, p);
    forall q | IsChain(fat, q) ensures IsChain(g, q) && Disjoint(p, q) {
      ZerosOffChain(fat, g, p, q);
    }
  }

  /** Entries that were zero are on no chain, so changing only them keeps it. */
  lemma ZerosOffChain(fat: seq<nat>, g: seq<nat>, p: seq<nat>, q: seq<nat>)
    requires IsChain(fat, q) && |g| == |fat|
    requires forall i :: 0 <= i < |p| ==> p[i] < |fat| && fat[p[i]] == 0
    requires forall c :: 0 <= c < |fat| && c !in p ==> g[c] == fat[c]
    ensures IsChain(g, q) && Disjoint(p, q)
  {
    forall i | 0 <= i < |q| ensures fat[q[i]] != 0 && q[i] !in p {
      if i < |q| - 1 { assert fat[q[i]] == q[i + 1]; }
    }
  }

  /** Allocation turns a well-formed FAT into a well-formed FAT with one more chain. */
  lemma AllocationWellFormed(fat: seq<nat>, hi: nat, n: nat, chains: seq<seq<nat>>)
    requires hi <= |fat| && hi < EOC_MIN && 0 < n <= |FreeList(fat, 2, hi)|
    requires WellFormed(fat, hi, chains)
    ensures var p := FreeList(fat, 2, hi)[..n];
            (forall i :: 0 <= i < |p| ==> p[i] < hi) && WellFormed(Linked(fat, p), hi, chains + [p])
  {
    AllocationEffect(fat, hi, n);
    var p := FreeList(fat, 2, hi)[..n];
    var g := Linked(fat, p);
    var all := chains + [p];
    forall j, k | 0 <= j < k < |all| ensures Disjoint(all[j], all[k]) {
      if k == |chains| {
        assert Disjoint(p, chains[j]);
      }
    }
    forall c: nat | 2 <= c < hi && g[c] != 0 && g[c] != BAD ensures OnSome(all, c) {
      if c in p {
        assert all[|chains|] == p;
      } else {
        var k :| 0 <= k < |chains| && c in chains[k];
        assert all[k] == chains[k];
      }
    }
  }

  // ---- extension ------------------------------------------------------------------

  function Extended(fat: seq<nat>, last: nat, c: nat): (g: seq<nat>)
    requires last < |fat| && c < |fat|
    ensures |g| == |fat|
  {
    fat[last := c][c := EOC]
  }

  /** The extended chain is a chain, and the cluster is off the free list. */
  lemma ExtensionOwnChain(fat: seq<nat>, hi: nat, q: seq<nat>)
    requires hi <= |fat| && hi < EOC_MIN && |FreeList(fat, 2, hi)| > 0 && IsChain(fat, q)
    ensures var c := FreeList(fat, 2, hi)[0];
            && c < hi && fat[c] == 0
            && var g := Extended(fat, q[|q| - 1], c);
            && IsChain(g, q + [c])
            && FreeList(g, 2, hi) == FreeList(fat, 2, hi)[1..]
  {
    FreeListSound(fat, 2, hi);
    var c := FreeList(fat, 2, hi)[0];
    var last := q[|q| - 1];
    var g := Extended(fat, last, c);
    var p := q + [c];
    ChainAcyclic(fat, q);
    forall i | 0 <= i < |p| - 1 ensures g[p[i]] == p[i + 1] {
      if i < |q| - 1 { assert q[i] != last && fat[q[i]] == q[i + 1]; }
    }
    FreeListTake(fat, g, 2, hi, [c]);
  }

  /** Extension appends the lowest free cluster to the chain it is given and touches no other. */
  lemma ExtensionEffect(fat: seq<nat>, hi: nat, q: seq<nat>)
    requires hi <= |fat| && hi < EOC_MIN && |FreeList(fat, 2, hi)| > 0 && IsChain(fat, q)
    ensures var c := FreeList(fat, 2, hi)[0];
            && c < hi && fat[c] == 0
            && var g := Extended(fat, q[|q| - 1], c);
            && IsChain(g, q + [c])
            && (forall r :: IsChain(fat, r) && Disjoint(q, r) ==> IsChain(g, r) && Disjoint(q + [c], r))
            && (forall e :: 0 <= e < |fat| && e != q[|q| - 1] && e != c ==> g[e] == fat[e])
            && FreeList(g, 2, hi) == FreeList(fat, 2, hi)[1..]
  {
    ExtensionOwnChain(fat, hi, q);
    var c := FreeList(fat, 2, hi)[0];
    var last := q[|q| - 1];
    var g := Extended(fat, last, c);
    forall r | IsChain(fat, r) && Disjoint(q, r) ensures IsChain(g, r) && Disjoint(q + [c], r) {
      forall i | 0 <= i < |r| ensures r[i] != c && r[i] != last {
        if i < |r| - 1 { assert fat[r[i]] == r[i + 1]; }
        assert q[|q| - 1] != r[i];
      }
    }
  }

  /** Replacing one of the chains keeps them apart. */
  lemma StillDisjoint(chains: seq<seq<nat>>, k: nat, q: seq<nat>, all: seq<seq<nat>>)
    requires k < |chains| && forall i, j :: 0 <= i < j < |chains| ==> Disjoint(chains[i], chains[j])
    requires forall j :: 0 <= j < |chains| && j != k ==> Disjoint(q, chains[j])
    requires all == chains[k := q]
    ensures forall i, j :: 0 <= i < j < |all| ==> Disjoint(all[i], all[j])
  {}

  lemma ExtensionOthers(fat: seq<nat>, hi: nat, chains: seq<seq<nat>>, k: nat)
    requires hi <= |fat| && hi < EOC_MIN && |FreeList(fat, 2, hi)| > 0
    requires WellFormed(fat, hi, chains) && k < |chains|
    ensures var q, c := chains[k], FreeList(fat, 2, hi)[0];
            && c < hi
            && forall j :: 0 <= j < |chains| && j != k ==>
                 IsChain(Extended(fat, q[|q| - 1], c), chains[j]) && Disjoint(q + [c], chains[j])
  {
    hide IsChain, FreeList, Extended;
    var q := chains[k];
    ExtensionEffect(fat, hi, q);
    forall j | 0 <= j < |chains| && j != k ensures Disjoint(q, chains[j]) {
      if j < k { assert Disjoint(chains[j], chains[k]); }
    }
  }

  lemma StillCovered(chains: seq<seq<nat>>, k: nat, c: nat, e: nat)
    requires k < |chains| && (e == c || OnSome(chains, e))
    ensures OnSome(chains[k := chains[k] + [c]], e)
  {
    var all := chains[k := chains[k] + [c]];
    if e == c {
      assert all[k][|chains[k]|] == c;
    } else {
      var j :| 0 <= j < |chains| && e in chains[j];
      assert e in all[j];
    }
  }

  lemma LastIsOn(fat: seq<nat>, chains: seq<seq<nat>>, k: nat)
    requires k < |chains| && IsChain(fat, chains[k])
    ensures OnSome(chains, chains[k][|chains[k]| - 1])
  {}

  lemma ExtensionWellFormed(fat: seq<nat>, hi: nat, chains: seq<seq<nat>>, k: nat)
    requires hi <= |fat| && hi < EOC_MIN && |FreeList(fat, 2, hi)| > 0
    requires WellFormed(fat, hi, chains) && k < |chains|
    ensures var q := chains[k];
            var c := FreeList(fat, 2, hi)[0];
            c < hi && WellFormed(Extended(fat, q[|q| - 1], c), hi, chains[k := q + [c]])
  {
    hide FreeList, Disjoint;
    var q := chains[k];
    assert 0 <= q[|q| - 1] < |fat|;
    hide IsChain;
    ExtensionEffect(fat, hi, q);
    ExtensionOthers(fat, hi, chains, k);
    var c := FreeList(fat, 2, hi)[0];
    var g := Extended(fat, q[|q| - 1], c);
    var all := chains[k := q + [c]];
    StillDisjoint(chains, k, q + [c], all);
    LastIsOn(fat, chains, k);
    forall e: nat | 2 <= e < hi && g[e] != 0 && g[e] != BAD ensures OnSome(all, e) {
      assert e == c || OnSome(chains, e);
      StillCovered(chains, k, c, e);
    }
  }
}
