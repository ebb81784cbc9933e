/** Bytes, 512-byte blocks, and the little-endian words and longs that the FAT
    structures are made of.  */
module Bytes {

  type byte = x: int | 0 <= x < 256

  type Block = b: seq<byte> | |b| == 512 witness seq(512, i => 0)

  type Disk = seq<Block>

  const SECTORSIZE := 512
  const DIRSIZE := 32

  /** The unsigned word stored at `o`.  */
  function Le16(b: seq<byte>, o: int): (v: int)
    requires 0 <= o && o + 2 <= |b|
    ensures 0 <= v < 0x1_0000
  {
    var lo: int, hi: int := b[o], b[o + 1];
    lo + 0x100 * hi
  }

  /** A Spin long is signed: 32 bits read in two's complement.  */
  function Long(u: int): (v: int)
    requires 0 <= u < 0x1_0000_0000
    ensures -0x8000_0000 <= v < 0x8000_0000
  {
    if u < 0x8000_0000 then u else u - 0x1_0000_0000
  }

  function Le32(b: seq<byte>, o: int): (v: int)
    requires 0 <= o && o + 4 <= |b|
    ensures -0x8000_0000 <= v < 0x8000_0000
  {
    Long(Le16(b, o) + 0x1_0000 * Le16(b, o + 2))
  }

  /** Two bytes of `b` replaced; a byte store keeps the low eight bits.  */
  function Put16(b: seq<byte>, o: int, v: int): (r: seq<byte>)
    requires 0 <= o && o + 2 <= |b|
    ensures |r| == |b|
    ensures Le16(r, o) == v % 0x1_0000
    ensures forall k :: 0 <= k < |b| && !(o <= k < o + 2) ==> r[k] == b[k]
  {
    assert v % 0x1_0000 == v % 0x100 + 0x100 * (v / 0x100 % 0x100);
    b[o := v % 0x100][o + 1 := v / 0x100 % 0x100]
  }

  function Put32(b: seq<byte>, o: int, v: int): (r: seq<byte>)
    requires 0 <= o && o + 4 <= |b|
    ensures |r| == |b|
    ensures -0x8000_0000 <= v < 0x8000_0000 ==> Le32(r, o) == v
    ensures forall k :: 0 <= k < |b| && !(o <= k < o + 4) ==> r[k] == b[k]
  {
    var lo := Put16(b, o, v);
    var r := Put16(lo, o + 2, v / 0x1_0000);
    assert Le16(r, o) == Le16(lo, o);
    assert v == v / 0x1_0000 % 0x1_0000 * 0x1_0000 + v % 0x1_0000
           || v == (v / 0x1_0000 % 0x1_0000 - 0x1_0000) * 0x1_0000 + v % 0x1_0000
           || !(-0x8000_0000 <= v < 0x8000_0000);
    r
  }

  method ByteMove(dst: array<byte>, at: int, src: seq<byte>)
    requires 0 <= at && at + |src| <= dst.Length
    modifies dst
    ensures dst[..] == old(dst[..at]) + src + old(dst[at + |src|..])
  {
    ghost var was := dst[..];
    var k := 0;
    while k < |src|
      invariant 0 <= k <= |src|
      invariant dst[..] == was[..at] + src[..k] + was[at + k..]
    {
      dst[at + k] := src[k];
      k := k + 1;
    }
  }

  method ByteFill(dst: array<byte>, at: int, n: int)
    requires 0 <= at && 0 <= n && at + n <= dst.Length
    modifies dst
    ensures dst[..] == old(dst[..at]) + seq(n, j => 0) + old(dst[at + n..])
  {
    ghost var was := dst[..];
    var k := 0;
    while k < n
      invariant 0 <= k <= n
      invariant forall j :: 0 <= j < dst.Length ==> dst[j] == if at <= j < at + k then 0 else was[j]
    {
      dst[at + k] := 0;
      k := k + 1;
    }
  }
}
