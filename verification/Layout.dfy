/** Where things lie on a mounted FAT16 or FAT32 volume, and the view of a disk
    as a table of FAT entries, a table of root directory slots and the data
    sectors of clusters.  */
module Layout {
  import opened Bytes
  import opened Arith

  /** The variables that mounting fills in.  `rootcluster` is the FAT32 root
      directory's first cluster and 0 on FAT16; `rootdir` and `rootdirend` bound that
      cluster, or the FAT16 root directory.  */
  datatype Geometry = Geometry(filesystem: int, fat1: int, sectorsperfat: int,
                               rootdir: int, rootdirend: int, dataregion: int,
                               clustershift: nat, totclusters: int, rootcluster: int)
  {
    function Spc(): (r: int)
      ensures r >= 1
    {
      Pow2(clustershift)
    }

    function ClusterSize(): int { SECTORSIZE * Spc() }

    function EndOfChain(): int { if filesystem == 2 then 0xffffff0 else 0xfff0 }

    function EntrySize(): int { if filesystem == 1 then 2 else 4 }

    function PerSector(): int { if filesystem == 1 then 256 else 128 }

    /** `c << filesystem` */
    function Shifted(c: int): int { if filesystem == 1 then 2 * c else 4 * c }

    function FatBlk(c: int): int { fat1 + if filesystem == 1 then c / 256 else c / 128 }

    function FatOff(c: int): int { if filesystem == 1 then c % 256 * 2 else c % 128 * 4 }

    /** The first cluster whose entry is in the FAT sector of c's entry.  */
    function PageStart(c: int): (s: int)
      ensures IsPage(s) && (0 <= c ==> 0 <= s <= c < s + PerSector())
    {
      if filesystem == 1 then c - c % 256 else c - c % 128
    }

    predicate IsPage(s: int) { if filesystem == 1 then s % 256 == 0 else s % 128 == 0 }

    /** The byte address that readfat computes.  */
    function FatAddr(c: int): int { SECTORSIZE * fat1 + Shifted(c) }

    function Slots(): int { (rootdirend - rootdir) / DIRSIZE }

    function SlotAddr(i: int): int { rootdir + DIRSIZE * i }

    function SlotBlk(i: int): int { rootdir / SECTORSIZE + i / 16 }

    function SlotOff(i: int): int { i % 16 * DIRSIZE }

    function DataBlk(c: int, s: int): int { dataregion + c * Spc() + s }

    function EndBlk(): int { dataregion + totclusters * Spc() }

    predicate InFat(n: int) { fat1 <= n < fat1 + sectorsperfat }

    predicate InRoot(n: int) { rootdir / SECTORSIZE <= n && SECTORSIZE * n < rootdirend }

    predicate IsMeta(n: int) { InFat(n) || InRoot(n) }

    /** A cluster that can belong to a file.  */
    predicate IsData(c: int) { 2 <= c < totclusters && c != rootcluster }

    /** A volume the mount code accepts and that is laid out as the FAT
        specification says; byte addresses fit in a positive Spin long.  More clusters
        may follow the first one of a FAT32 root directory.  */
    predicate Wf() {
      && (filesystem == 1 || filesystem == 2)
      && 0 < fat1 && 0 < sectorsperfat
      && 2 <= totclusters <= EndOfChain()
      && totclusters <= PerSector() * sectorsperfat
      && rootdir % SECTORSIZE == 0
      && SECTORSIZE * (fat1 + 2 * sectorsperfat) <= rootdir
      && rootdir < rootdirend < 0x8000_0000
      && (rootdirend - rootdir) % DIRSIZE == 0
      && fat1 + 2 * sectorsperfat <= DataBlk(2, 0)
      && (filesystem == 1 ==> rootcluster == 0 && rootdirend <= SECTORSIZE * DataBlk(2, 0))
      && (filesystem == 2 ==> 2 <= rootcluster < totclusters
                              && rootdir == SECTORSIZE * DataBlk(rootcluster, 0)
                              && rootdirend == rootdir + ClusterSize())
    }
  }

  predicate Holds(g: Geometry, d: Disk) {
    g.Wf() && g.EndBlk() <= |d|
  }

  lemma FatPlace(g: Geometry, c: int)
    requires g.Wf() && 0 <= c < g.totclusters
    ensures g.InFat(g.FatBlk(c))
    ensures 0 <= g.FatOff(c) && g.FatOff(c) + g.EntrySize() <= SECTORSIZE
    ensures g.FatAddr(c) / SECTORSIZE == g.FatBlk(c) && g.FatAddr(c) % SECTORSIZE == g.FatOff(c)
  {
  }

  lemma SlotPlace(g: Geometry, i: int)
    requires g.Wf() && 0 <= i < g.Slots()
    ensures g.InRoot(g.SlotBlk(i))
    ensures 0 <= g.SlotOff(i) <= SECTORSIZE - DIRSIZE
    ensures g.SlotAddr(i) / SECTORSIZE == g.SlotBlk(i) && g.SlotAddr(i) % SECTORSIZE == g.SlotOff(i)
  {
  }

  /** The FATs, the root directory and the clusters of files are apart, and all
      on the disk.  */
  lemma RegionsApart(g: Geometry, c: int, s: int)
    requires g.Wf() && g.IsData(c) && 0 <= s < g.Spc()
    ensures 0 < g.fat1 + 2 * g.sectorsperfat <= g.DataBlk(c, s) < g.EndBlk()
    ensures !g.InRoot(g.DataBlk(c, s))
  {
    MulMono(2, c, g.Spc());
    MulBelow(c, g.totclusters, g.Spc());
    if g.filesystem == 2 {
      if c < g.rootcluster {
        MulBelow(c, g.rootcluster, g.Spc());
      } else {
        MulBelow(g.rootcluster, c, g.Spc());
      }
    }
  }

  lemma MetaOnDisk(g: Geometry, n: int)
    requires g.Wf() && g.IsMeta(n)
    ensures 0 <= n < g.EndBlk()
    ensures g.InFat(n) ==> 0 <= n + g.sectorsperfat < g.EndBlk() && !g.InFat(n + g.sectorsperfat)
    ensures g.InRoot(n) ==> g.fat1 + 2 * g.sectorsperfat <= n
    ensures g.InFat(n) ==> !g.InRoot(n) && !g.InRoot(n + g.sectorsperfat)
  {
    MulMono(2, g.totclusters, g.Spc());
    if g.filesystem == 2 {
      MulBelow(g.rootcluster, g.totclusters, g.Spc());
    }
  }

  /** Different sectors of clusters are different blocks.  */
  lemma SectorsApart(g: Geometry, c: int, s: int, c': int, s': int)
    requires 0 <= s < g.Spc() && 0 <= s' < g.Spc()
    requires g.DataBlk(c, s) == g.DataBlk(c', s')
    ensures c == c' && s == s'
  {
    PairUnique(c, s, c', s', g.Spc());
  }

  // ---------------------------------------------------------------- metadata

  type Slot = e: seq<byte> | |e| == 32 witness seq(32, i => 0)

  /** The FAT and the root directory as tables.  */
  datatype Meta = Meta(fat: seq<int>, dir: seq<Slot>)

  function GetClust(fs: int, b: seq<byte>, o: int): int
    requires 0 <= o && o + (if fs == 1 then 2 else 4) <= |b|
  {
    if fs == 1 then Le16(b, o) else Le32(b, o)
  }

  function PutClust(fs: int, b: seq<byte>, o: int, v: int): (r: seq<byte>)
    requires 0 <= o && o + (if fs == 1 then 2 else 4) <= |b|
    ensures |r| == |b|
  {
    if fs == 1 then Put16(b, o, v) else Put32(b, o, v)
  }

  function FatEntry(g: Geometry, d: Disk, c: int): int
    requires Holds(g, d) && 0 <= c < g.totclusters
  {
    FatPlace(g, c);
    MetaOnDisk(g, g.FatBlk(c));
    GetClust(g.filesystem, d[g.FatBlk(c)], g.FatOff(c))
  }

  function DirSlot(g: Geometry, d: Disk, i: int): Slot
    requires Holds(g, d) && 0 <= i < g.Slots()
  {
    SlotPlace(g, i);
    MetaOnDisk(g, g.SlotBlk(i));
    d[g.SlotBlk(i)][g.SlotOff(i)..g.SlotOff(i) + DIRSIZE]
  }

  function MetaOf(g: Geometry, d: Disk): (m: Meta)
    requires Holds(g, d)
    ensures |m.fat| == g.totclusters && |m.dir| == g.Slots()
  {
    Meta(seq(g.totclusters, c requires 0 <= c < g.totclusters => FatEntry(g, d, c)),
         seq(g.Slots(), i requires 0 <= i < g.Slots() => DirSlot(g, d, i)))
  }

  function Sector(g: Geometry, d: Disk, c: int, s: int): Block
    requires Holds(g, d) && g.IsData(c) && 0 <= s < g.Spc()
  {
    RegionsApart(g, c, s);
    d[g.DataBlk(c, s)]
  }

  ghost predicate SameData(g: Geometry, d: Disk, d': Disk)
    requires Holds(g, d) && Holds(g, d')
  {
    forall c, s :: g.IsData(c) && 0 <= s < g.Spc() ==> Sector(g, d', c, s) == Sector(g, d, c, s)
  }

  lemma SameDataSelf(g: Geometry, d: Disk)
    requires Holds(g, d)
    ensures SameData(g, d, d)
  {
  }

  lemma SameDataTrans(g: Geometry, a: Disk, b: Disk, c: Disk)
    requires Holds(g, a) && Holds(g, b) && Holds(g, c) && SameData(g, a, b) && SameData(g, b, c)
    ensures SameData(g, a, c)
  {
  }

  /** The two copies of the FAT agree.  */
  ghost predicate Mirrored(g: Geometry, d: Disk)
    requires Holds(g, d)
  {
    forall n :: g.InFat(n) ==> MirrorBlk(g, d, n)
  }

  predicate MirrorBlk(g: Geometry, d: Disk, n: int)
    requires Holds(g, d) && g.InFat(n)
  {
    MetaOnDisk(g, n);
    d[n + g.sectorsperfat] == d[n]
  }

  /** The disk after a metadata write: a block of the first FAT is written to
      the second FAT as well.  */
  function MetaWrite(g: Geometry, d: Disk, n: int, b: Block): (d': Disk)
    requires Holds(g, d) && g.IsMeta(n)
    ensures Holds(g, d') && |d'| == |d|
  {
    MetaOnDisk(g, n);
    if g.InFat(n) then d[n := b][n + g.sectorsperfat := b] else d[n := b]
  }

  lemma MetaWriteKeepsData(g: Geometry, d: Disk, n: int, b: Block)
    requires Holds(g, d) && g.IsMeta(n)
    ensures SameData(g, d, MetaWrite(g, d, n, b))
  {
    MetaOnDisk(g, n);
    forall c, s | g.IsData(c) && 0 <= s < g.Spc()
      ensures Sector(g, MetaWrite(g, d, n, b), c, s) == Sector(g, d, c, s)
    {
      RegionsApart(g, c, s);
    }
  }

  lemma MetaWriteKeepsMirror(g: Geometry, d: Disk, n: int, b: Block)
    requires Holds(g, d) && g.IsMeta(n) && Mirrored(g, d)
    ensures Mirrored(g, MetaWrite(g, d, n, b))
  {
    var d' := MetaWrite(g, d, n, b);
    forall k | g.InFat(k)
      ensures MirrorBlk(g, d', k)
    {
      MetaOnDisk(g, n);
      MetaOnDisk(g, k);
      assert MirrorBlk(g, d, k);
    }
  }

  /** The tables depend on the metadata blocks alone.  */
  lemma FatEntryFrom(g: Geometry, d: Disk, d': Disk, c: int)
    requires Holds(g, d) && Holds(g, d') && 0 <= c < g.totclusters
    requires 0 <= g.FatBlk(c) < |d| && 0 <= g.FatBlk(c) < |d'|
    requires d'[g.FatBlk(c)] == d[g.FatBlk(c)]
    ensures FatEntry(g, d', c) == FatEntry(g, d, c)
  {
  }

  lemma DirSlotFrom(g: Geometry, d: Disk, d': Disk, i: int)
    requires Holds(g, d) && Holds(g, d') && 0 <= i < g.Slots()
    requires 0 <= g.SlotBlk(i) < |d| && 0 <= g.SlotBlk(i) < |d'|
    requires d'[g.SlotBlk(i)] == d[g.SlotBlk(i)]
    ensures DirSlot(g, d', i) == DirSlot(g, d, i)
  {
  }

  lemma MetaFrom(g: Geometry, d: Disk, d': Disk)
    requires Holds(g, d) && Holds(g, d')
    requires forall n :: g.IsMeta(n) && 0 <= n < |d| && n < |d'| ==> d'[n] == d[n]
    ensures MetaOf(g, d') == MetaOf(g, d)
  {
    forall c | 0 <= c < g.totclusters
      ensures FatEntry(g, d', c) == FatEntry(g, d, c)
    {
      FatPlace(g, c);
      MetaOnDisk(g, g.FatBlk(c));
      FatEntryFrom(g, d, d', c);
    }
    forall i | 0 <= i < g.Slots()
      ensures DirSlot(g, d', i) == DirSlot(g, d, i)
    {
      SlotPlace(g, i);
      MetaOnDisk(g, g.SlotBlk(i));
      DirSlotFrom(g, d, d', i);
    }
    assert MetaOf(g, d').fat == MetaOf(g, d).fat;
    assert MetaOf(g, d').dir == MetaOf(g, d).dir;
  }

  lemma PutClustGet(fs: int, b: seq<byte>, o: int, v: int)
    requires 0 <= o && o + (if fs == 1 then 2 else 4) <= |b|
    requires 0 <= v < 0x1_0000 || (fs != 1 && -0x8000_0000 <= v < 0x8000_0000)
    ensures GetClust(fs, PutClust(fs, b, o, v), o) == v
  {
  }

  lemma PutClustOther(fs: int, b: seq<byte>, o: int, v: int, o': int)
    requires 0 <= o && o + (if fs == 1 then 2 else 4) <= |b|
    requires 0 <= o' && o' + (if fs == 1 then 2 else 4) <= |b|
    requires o + (if fs == 1 then 2 else 4) <= o' || o' + (if fs == 1 then 2 else 4) <= o
    ensures GetClust(fs, PutClust(fs, b, o, v), o') == GetClust(fs, b, o')
  {
  }

  lemma EntriesApart(g: Geometry, c: int, x: int)
    requires g.Wf() && 0 <= c && 0 <= x && x != c && g.FatBlk(x) == g.FatBlk(c)
    ensures g.FatOff(c) + g.EntrySize() <= g.FatOff(x) || g.FatOff(x) + g.EntrySize() <= g.FatOff(c)
  {
  }

  lemma FatPutEntry(g: Geometry, d: Disk, d': Disk, c: int, v: int, x: int)
    requires Holds(g, d) && Holds(g, d') && 0 <= c < g.totclusters && 0 <= x < g.totclusters
    requires 0 <= v < 0x1_0000 || (g.filesystem == 2 && -0x8000_0000 <= v < 0x8000_0000)
    requires 0 <= g.FatBlk(c) < |d| && 0 <= g.FatBlk(c) < |d'| && 0 <= g.FatOff(c) <= SECTORSIZE - g.EntrySize()
    requires d'[g.FatBlk(c)] == PutClust(g.filesystem, d[g.FatBlk(c)], g.FatOff(c), v)
    requires forall n :: g.IsMeta(n) && n != g.FatBlk(c) && 0 <= n < |d| && n < |d'| ==> d'[n] == d[n]
    ensures FatEntry(g, d', x) == if x == c then v else FatEntry(g, d, x)
  {
    FatPlace(g, x);
    MetaOnDisk(g, g.FatBlk(x));
    if x == c {
      PutClustGet(g.filesystem, d[g.FatBlk(c)], g.FatOff(c), v);
    } else if g.FatBlk(x) == g.FatBlk(c) {
      EntriesApart(g, c, x);
      PutClustOther(g.filesystem, d[g.FatBlk(c)], g.FatOff(c), v, g.FatOff(x));
    } else {
      FatEntryFrom(g, d, d', x);
    }
  }

  /** Storing a FAT entry changes that entry and nothing else.  */
  lemma FatPut(g: Geometry, d: Disk, c: int, v: int)
    requires Holds(g, d) && 0 <= c < g.totclusters
    requires 0 <= v < 0x1_0000 || (g.filesystem == 2 && -0x8000_0000 <= v < 0x8000_0000)
    requires g.InFat(g.FatBlk(c)) && 0 <= g.FatBlk(c) < |d| && 0 <= g.FatOff(c) <= SECTORSIZE - g.EntrySize()
    ensures var d' := MetaWrite(g, d, g.FatBlk(c), PutClust(g.filesystem, d[g.FatBlk(c)], g.FatOff(c), v));
            var m := MetaOf(g, d);
            MetaOf(g, d') == m.(fat := m.fat[c := v])
  {
    var n := g.FatBlk(c);
    var d' := MetaWrite(g, d, n, PutClust(g.filesystem, d[n], g.FatOff(c), v));
    MetaOnDisk(g, n);
    forall x | 0 <= x < g.totclusters
      ensures FatEntry(g, d', x) == if x == c then v else FatEntry(g, d, x)
    {
      FatPutEntry(g, d, d', c, v, x);
    }
    forall i | 0 <= i < g.Slots()
      ensures DirSlot(g, d', i) == DirSlot(g, d, i)
    {
      SlotPlace(g, i);
      MetaOnDisk(g, g.SlotBlk(i));
      DirSlotFrom(g, d, d', i);
    }
    var m, m' := MetaOf(g, d), MetaOf(g, d');
    assert m'.fat == m.fat[c := v];
    assert m'.dir == m.dir;
  }

  lemma DirPutSlot(g: Geometry, d: Disk, d': Disk, i: int, j: int)
    requires Holds(g, d) && Holds(g, d') && 0 <= i < g.Slots() && 0 <= j < g.Slots() && i != j
    requires 0 <= g.SlotBlk(i) < |d| && 0 <= g.SlotBlk(i) < |d'|
    requires forall k :: 0 <= k < 512 && !(g.SlotOff(i) <= k < g.SlotOff(i) + DIRSIZE)
               ==> d'[g.SlotBlk(i)][k] == d[g.SlotBlk(i)][k]
    requires forall n :: g.IsMeta(n) && n != g.SlotBlk(i) && 0 <= n < |d| && n < |d'| ==> d'[n] == d[n]
    ensures DirSlot(g, d', j) == DirSlot(g, d, j)
  {
    SlotPlace(g, j);
    MetaOnDisk(g, g.SlotBlk(j));
    if g.SlotBlk(j) == g.SlotBlk(i) {
      assert g.SlotOff(i) + DIRSIZE <= g.SlotOff(j) || g.SlotOff(j) + DIRSIZE <= g.SlotOff(i);
      assert DirSlot(g, d', j) == DirSlot(g, d, j);
    } else {
      DirSlotFrom(g, d, d', j);
    }
  }

  /** Rewriting the bytes of one directory slot changes that slot and nothing
      else.  */
  lemma DirPut(g: Geometry, d: Disk, i: int, b: Block)
    requires Holds(g, d) && 0 <= i < g.Slots()
    requires g.InRoot(g.SlotBlk(i)) && 0 <= g.SlotBlk(i) < |d| && 0 <= g.SlotOff(i) <= SECTORSIZE - DIRSIZE
    requires forall k :: 0 <= k < 512 && !(g.SlotOff(i) <= k < g.SlotOff(i) + DIRSIZE) ==> b[k] == d[g.SlotBlk(i)][k]
    ensures var d' := MetaWrite(g, d, g.SlotBlk(i), b);
            var m := MetaOf(g, d);
            MetaOf(g, d') == m.(dir := m.dir[i := b[g.SlotOff(i)..g.SlotOff(i) + DIRSIZE]])
  {
    var n := g.SlotBlk(i);
    var d' := MetaWrite(g, d, n, b);
    MetaOnDisk(g, n);
    forall x | 0 <= x < g.totclusters
      ensures FatEntry(g, d', x) == FatEntry(g, d, x)
    {
      FatPlace(g, x);
      MetaOnDisk(g, g.FatBlk(x));
      FatEntryFrom(g, d, d', x);
    }
    forall j | 0 <= j < g.Slots() && j != i
      ensures DirSlot(g, d', j) == DirSlot(g, d, j)
    {
      DirPutSlot(g, d, d', i, j);
    }
    var m, m' := MetaOf(g, d), MetaOf(g, d');
    assert m'.fat == m.fat;
    assert m'.dir == m.dir[i := b[g.SlotOff(i)..g.SlotOff(i) + DIRSIZE]];
  }

  /** Writing a data sector changes neither table nor any other sector.  */
  lemma DataPut(g: Geometry, d: Disk, c: int, s: int, b: Block)
    requires Holds(g, d) && g.IsData(c) && 0 <= s < g.Spc()
    requires 0 <= g.DataBlk(c, s) < |d|
    ensures var d' := d[g.DataBlk(c, s) := b];
            && MetaOf(g, d') == MetaOf(g, d)
            && Sector(g, d', c, s) == b
            && forall c', s' :: g.IsData(c') && 0 <= s' < g.Spc() && !(c' == c && s' == s)
                 ==> Sector(g, d', c', s') == Sector(g, d, c', s')
  {
    var n := g.DataBlk(c, s);
    var d' := d[n := b];
    RegionsApart(g, c, s);
    MetaFrom(g, d, d');
    forall c', s' | g.IsData(c') && 0 <= s' < g.Spc() && !(c' == c && s' == s)
      ensures Sector(g, d', c', s') == Sector(g, d, c', s')
    {
      RegionsApart(g, c', s');
      if g.DataBlk(c', s') == n {
        SectorsApart(g, c, s, c', s');
      }
    }
  }

  lemma DataPutKeepsMirror(g: Geometry, d: Disk, n: int, b: Block)
    requires Holds(g, d) && Mirrored(g, d) && g.fat1 + 2 * g.sectorsperfat <= n < |d|
    ensures Mirrored(g, d[n := b])
  {
    forall k | g.InFat(k)
      ensures MirrorBlk(g, d[n := b], k)
    {
      MetaOnDisk(g, k);
      assert MirrorBlk(g, d, k);
    }
  }
}
