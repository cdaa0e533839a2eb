/** Machine bytes, 512-byte sectors and little-endian fields. */
module Bytes {
  type byte = b: int | 0 <= b < 256

  const SECTOR_SIZE := 512
  const U32 := 0x1_0000_0000
  const U16 := 0x1_0000

  function Zeros(n: nat): (z: seq<byte>)
    ensures |z| == n && forall i :: 0 <= i < n ==> z[i] == 0
  {
    seq(n, i requires 0 <= i < n => 0)
  }

  type Sector = s: seq<byte> | |s| == SECTOR_SIZE witness Zeros(SECTOR_SIZE)

  function ZeroSector(): Sector { Zeros(SECTOR_SIZE) }

  function Le16(s: seq<byte>, off: nat): nat
    requires off + 2 <= |s|
  {
    s[off] as int + 0x100 * (s[off + 1] as int)
  }

  function Le32(s: seq<byte>, off: nat): nat
    requires off + 4 <= |s|
  {
    s[off] as int + 0x100 * (s[off + 1] as int) + 0x1_0000 * (s[off + 2] as int) + 0x100_0000 * (s[off + 3] as int)
  }

  /** The four little-endian bytes of a 32-bit value. */
  function Bytes32(x: nat): (b: seq<byte>)
    requires x < U32
    ensures |b| == 4
  {
    [x % 0x100, x / 0x100 % 0x100, x / 0x1_0000 % 0x100, x / 0x100_0000]
  }

  function Bytes16(x: nat): (b: seq<byte>)
    requires x < U16
    ensures |b| == 2
  {
    [x % 0x100, x / 0x100]
  }

  /** s with the bytes at off replaced by b. */
  function Splice(s: seq<byte>, off: nat, b: seq<byte>): (r: seq<byte>)
    requires off + |b| <= |s|
    ensures |r| == |s|
    ensures forall i :: 0 <= i < |s| ==> r[i] == if off <= i < off + |b| then b[i - off] else s[i]
  {
    s[..off] + b + s[off + |b|..]
  }

  /** Overwriting a part of what was just spliced in. */
  lemma SpliceInto(s: seq<byte>, off: nat, b: seq<byte>, i: nat, x: seq<byte>)
    requires off + |b| <= |s| && i + |x| <= |b|
    ensures Splice(Splice(s, off, b), off + i, x) == Splice(s, off, Splice(b, i, x))
  {}

  /** A splice below n leaves the rest alone. */
  lemma SpliceBelow(s: seq<byte>, off: nat, b: seq<byte>, n: nat)
    requires off + |b| <= n <= |s|
    ensures Splice(s, off, b)[..n] == Splice(s[..n], off, b) && Splice(s, off, b)[n..] == s[n..]
  {}

  lemma SpliceNext(s: seq<byte>, b: seq<byte>, x: seq<byte>)
    requires |b| + |x| <= |s|
    ensures Splice(Splice(s, 0, b), |b|, x) == Splice(s, 0, b + x)
  {}

  lemma Le32OfBytes32(s: seq<byte>, off: nat, x: nat)
    requires x < U32 && off + 4 <= |s| && s[off..off + 4] == Bytes32(x)
    ensures Le32(s, off) == x
  {
    var t := s[off..off + 4];
    assert t[0] == s[off] && t[1] == s[off + 1] && t[2] == s[off + 2] && t[3] == s[off + 3];
    assert x / 0x100 / 0x100 == x / 0x1_0000 && x / 0x1_0000 / 0x100 == x / 0x100_0000;
  }

  lemma Le16OfBytes16(s: seq<byte>, off: nat, x: nat)
    requires x < U16 && off + 2 <= |s| && s[off..off + 2] == Bytes16(x)
    ensures Le16(s, off) == x
  {
    var t := s[off..off + 2];
    assert t[0] == s[off] && t[1] == s[off + 1];
  }

  lemma Regroup(a: seq<byte>, b: seq<byte>, c: seq<byte>)
    ensures a + b + c == a + (b + c)
  {}

  /** Puts bytes into a buffer one by one. */
  method StoreBytes(buf: array<byte>, off: nat, b: seq<byte>)
    requires off + |b| <= buf.Length
    modifies buf
    ensures buf[..] == Splice(old(buf[..]), off, b)
  {
    for j := 0 to |b|
      invariant forall i :: 0 <= i < buf.Length ==> buf[i] == if off <= i < off + j then b[i - off] else old(buf[i])
    {
      buf[off + j] := b[j];
    }
  }
}
