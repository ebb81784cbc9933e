/** The card behind the one-sector write-back cache of metadata: the shared
    variables `disk`, `buf2`, `lastread` and `dirty`.  */
module Cache {
  import opened Bytes
  import opened Arith
  import opened Layout
  import opened Fat
  import opened Content

  /** `t'` extends `t` by disk images that all show the tables `m`.  */
  ghost predicate Grown(g: Geometry, t: seq<Disk>, t': seq<Disk>, m: Meta) {
    && |t| <= |t'| && t'[..|t|] == t
    && forall i :: |t| <= i < |t'| ==> Holds(g, t'[i]) && MetaOf(g, t'[i]) == m
  }

  /** `t'` extends `t`.  */
  ghost predicate Prefix(t: seq<Disk>, t': seq<Disk>) {
    |t| <= |t'| && t'[..|t|] == t
  }

  /** Every image from the `from`-th on is sound.  */
  ghost predicate AllSound(g: Geometry, t: seq<Disk>, from: int) {
    forall i :: 0 <= from <= i < |t| ==> Holds(g, t[i]) && Sound(g, MetaOf(g, t[i]))
  }

  lemma GrownTwice(g: Geometry, t: seq<Disk>, t': seq<Disk>, t'': seq<Disk>, m: Meta)
    requires Grown(g, t, t', m) && Grown(g, t', t'', m)
    ensures Grown(g, t, t'', m)
  {
    assert forall i :: 0 <= i < |t'| ==> t''[i] == t'[i] by {
      assert forall i :: 0 <= i < |t'| ==> t''[..|t'|][i] == t''[i];
    }
    assert t''[..|t|] == t'[..|t|];
  }

  lemma GrownSound(g: Geometry, t: seq<Disk>, t': seq<Disk>, m: Meta, from: int)
    requires Grown(g, t, t', m) && 0 <= from <= |t| && AllSound(g, t, from) && Sound(g, m)
    ensures AllSound(g, t', from)
  {
    forall i | from <= i < |t'|
      ensures Holds(g, t'[i]) && Sound(g, MetaOf(g, t'[i]))
    {
      if i < |t| {
        assert t'[..|t|][i] == t'[i];
      }
    }
  }

  lemma GrownBack(g: Geometry, t: seq<Disk>, t': seq<Disk>, m: Meta)
    requires Grown(g, t, t', m) && AllSound(g, t', 0)
    ensures AllSound(g, t, 0)
  {
    forall i | 0 <= i < |t|
      ensures Holds(g, t[i]) && Sound(g, MetaOf(g, t[i]))
    {
      assert t'[..|t|][i] == t[i];
    }
  }

  /** Power may fail at any time: what is on the disk is sound, and `exposed` says
      whether after some block write it was not.  */
  ghost predicate Crash(g: Geometry, t: seq<Disk>, exposed: bool) {
    && t != [] && Holds(g, t[|t| - 1]) && Sound(g, MetaOf(g, t[|t| - 1]))
    && (exposed <==> !AllSound(g, t, 0))
  }

  lemma CrashOn(g: Geometry, t: seq<Disk>, t': seq<Disk>, m: Meta, exposed: bool)
    requires Crash(g, t, exposed) && Grown(g, t, t', m) && Sound(g, m)
    ensures Crash(g, t', exposed)
  {
    hide MetaOf, Sound;
    if AllSound(g, t, 0) {
      GrownSound(g, t, t', m, 0);
    }
    if AllSound(g, t', 0) {
      GrownBack(g, t, t', m);
    }
    if |t'| == |t| {
      assert t'[..|t|][|t| - 1] == t[|t| - 1];
    }
  }

  lemma CrashSame(g: Geometry, t: seq<Disk>, t': seq<Disk>, d: Disk, exposed: bool)
    requires Crash(g, t, exposed) && t[|t| - 1] == d && Holds(g, d) && Grown(g, t, t', MetaOf(g, d))
    ensures Crash(g, t', exposed)
  {
    hide MetaOf, Sound;
    CrashOn(g, t, t', MetaOf(g, d), exposed);
  }

  class Volume {
    var geo: Geometry
    var disk: Disk
    const buf2: array<byte>
    const padname: array<byte>
    var lastread: int
    var dirty: bool

    /** The disk at the time of mounting and after every physical block write
        since, in order.  */
    ghost var trail: seq<Disk>
    /** The chain of every live file, by directory slot.  */
    ghost var chains: map<int, seq<int>>
    /** The files of the volume as its user sees them: those of the directory slots
        between `rootdir` and `rootdirend`.  */
    ghost var files: Files
    /** Whether creating a file has ever left the disk unsound for the time between
        two block writes, by bringing stale slots back to life.  */
    ghost var exposed: bool

    /** The variables before the first mount.  */
    constructor (card: Disk)
      ensures disk == card && fresh(buf2) && buf2.Length == SECTORSIZE && fresh(padname) && padname.Length == 11
      ensures lastread == 0 && !dirty
    {
      geo := Geometry(0, 0, 0, 0, 0, 0, 0, 0, 0);
      disk := card;
      buf2 := new byte[SECTORSIZE];
      padname := new byte[11];
      lastread, dirty := 0, false;
      trail, chains, files, exposed := [card], map[], map[], false;
    }

    ghost predicate Valid()
      reads this`geo, this`disk, this`lastread, this`dirty, this`trail, buf2
    {
      && buf2.Length == SECTORSIZE
      && Holds(geo, disk) && Mirrored(geo, disk)
      && trail != [] && trail[|trail| - 1] == disk
      && (lastread == -1 ==> !dirty)
      && (lastread != -1 ==> geo.IsMeta(lastread) && 0 <= lastread < |disk|)
      && (lastread != -1 && !dirty ==> buf2[..] == disk[lastread])
    }

    /** The logical disk: what the card would hold after a flush.  */
    ghost function L(): (d: Disk)
      reads this`geo, this`disk, this`lastread, this`dirty, this`trail, buf2
      requires Valid()
      ensures Holds(geo, d) && |d| == |disk|
      ensures lastread != -1 ==> buf2[..] == d[lastread]
      ensures !dirty ==> d == disk
    {
      if dirty then
        MetaOnDisk(geo, lastread);
        MetaWrite(geo, disk, lastread, buf2[..])
      else disk
    }

    ghost function M(): (m: Meta)
      reads this`geo, this`disk, this`lastread, this`dirty, this`trail, buf2
      requires Valid()
      ensures |m.fat| == geo.totclusters && |m.dir| == geo.Slots()
    {
      MetaOf(geo, L())
    }

    /** The block driver's read of a block into a buffer.  */
    method ReadBlock(n: int, b: array<byte>)
      requires 0 <= n < |disk| && b.Length == SECTORSIZE
      modifies b
      ensures b[..] == disk[n]
    {
      var k := 0;
      while k < SECTORSIZE
        invariant 0 <= k <= SECTORSIZE
        invariant b[..k] == disk[n][..k]
      {
        b[k] := disk[n][k];
        k := k + 1;
      }
    }

    /** The block driver's write of a block.  */
    method WriteBlock(n: int, b: array<byte>)
      requires 0 <= n < |disk| && b.Length == SECTORSIZE
      modifies this`disk, this`trail
      ensures disk == old(disk)[n := b[..]]
      ensures trail == old(trail) + [disk]
    {
      disk := disk[n := b[..]];
      trail := trail + [disk];
    }

    /** A metadata write goes to the second FAT as well.  */
    method WriteBlock2(n: int, b: array<byte>)
      requires Holds(geo, disk) && geo.IsMeta(n) && b.Length == SECTORSIZE
      modifies this`disk, this`trail
      ensures disk == MetaWrite(geo, old(disk), n, b[..])
      ensures Grown(geo, old(trail), trail, MetaOf(geo, disk))
      ensures trail != [] && trail[|trail| - 1] == disk
    {
      MetaOnDisk(geo, n);
      WriteBlock(n, b);
      ghost var half := disk;
      if n >= geo.fat1 {
        if n < geo.fat1 + geo.sectorsperfat {
          WriteBlock(n + geo.sectorsperfat, b);
        }
      }
      MetaFrom(geo, half, disk);
      assert trail[..|old(trail)|] == old(trail);
    }

    /** Afterwards the card holds the logical disk, which did not change.  */
    method FlushIfDirty()
      requires Valid()
      modifies this`disk, this`trail, this`dirty
      ensures Valid() && !dirty && L() == old(L()) && disk == L()
      ensures Grown(geo, old(trail), trail, M())
      ensures old(!dirty) ==> disk == old(disk) && trail == old(trail)
    {
      if dirty {
        MetaOnDisk(geo, lastread);
        MetaWriteKeepsMirror(geo, disk, lastread, buf2[..]);
        WriteBlock2(lastread, buf2);
        dirty := false;
      }
    }

    method ReadBlockC(n: int)
      requires Valid() && geo.IsMeta(n)
      modifies this`disk, this`trail, this`dirty, this`lastread, buf2
      ensures Valid() && L() == old(L()) && lastread == n
      ensures Grown(geo, old(trail), trail, M())
      ensures old(lastread) != n ==> !dirty
      ensures old(lastread) == n ==> disk == old(disk) && trail == old(trail)
      ensures old(!dirty) ==> !dirty && disk == old(disk) && trail == old(trail)
    {
      if n != lastread {
        FlushIfDirty();
        MetaOnDisk(geo, n);
        ReadBlock(n, buf2);
        lastread := n;
      }
    }

    /** The place in `buf2` of a byte address of the disk.  */
    method ReadByteC(byteloc: int) returns (o: int)
      requires Valid() && geo.IsMeta(byteloc / SECTORSIZE)
      modifies this`disk, this`trail, this`dirty, this`lastread, buf2
      ensures Valid() && L() == old(L()) && lastread == byteloc / SECTORSIZE && o == byteloc % SECTORSIZE
      ensures Grown(geo, old(trail), trail, M())
      ensures old(lastread) != lastread ==> !dirty
      ensures old(lastread) == lastread ==> disk == old(disk) && trail == old(trail)
      ensures old(!dirty) ==> !dirty && disk == old(disk) && trail == old(trail)
    {
      ReadBlockC(byteloc / SECTORSIZE);
      o := byteloc % SECTORSIZE;
    }

    method BrwWord(o: int, v: int)
      requires Valid() && lastread != -1 && 0 <= o && o + 2 <= SECTORSIZE
      modifies this`dirty, buf2
      ensures Valid() && dirty
      ensures L() == MetaWrite(geo, old(L()), lastread, Put16(old(L())[lastread], o, v))
    {
      ghost var was := buf2[..];
      buf2[o] := v % 0x100;
      buf2[o + 1] := v / 0x100 % 0x100;
      dirty := true;
      assert buf2[..] == Put16(was, o, v);
      MetaOnDisk(geo, lastread);
    }

    method BrwLong(o: int, v: int)
      requires Valid() && lastread != -1 && 0 <= o && o + 4 <= SECTORSIZE
      modifies this`dirty, buf2
      ensures Valid() && dirty
      ensures L() == MetaWrite(geo, old(L()), lastread, Put32(old(L())[lastread], o, v))
    {
      MetaOnDisk(geo, lastread);
      BrwWord(o, v);
      BrwWord(o + 2, v / 0x1_0000);
    }

    method BrwClust(o: int, v: int)
      requires Valid() && lastread != -1 && 0 <= o && o + geo.EntrySize() <= SECTORSIZE
      modifies this`dirty, buf2
      ensures Valid() && dirty
      ensures L() == MetaWrite(geo, old(L()), lastread, PutClust(geo.filesystem, old(L())[lastread], o, v))
    {
      if geo.filesystem == 1 {
        BrwWord(o, v);
      } else {
        BrwLong(o, v);
      }
    }

    /** brwclust at the place that readfat returned: the entry of cluster c.  */
    method StoreFat(o: int, v: int, ghost c: int)
      requires Valid() && 0 <= c < geo.totclusters && lastread == geo.FatBlk(c) && o == geo.FatOff(c)
      requires 0 <= v < 0x1_0000 || (geo.filesystem == 2 && -0x8000_0000 <= v < 0x8000_0000)
      modifies this`dirty, buf2
      ensures Valid() && dirty && SameData(geo, old(L()), L())
      ensures M() == old(M()).(fat := old(M()).fat[c := v])
    {
      ghost var was := L();
      FatPlace(geo, c);
      BrwClust(o, v);
      FatPut(geo, was, c, v);
      MetaWriteKeepsData(geo, was, lastread, PutClust(geo.filesystem, was[lastread], o, v));
    }

    /** brwword and brwlong at a place inside a directory slot.  */
    method StoreSlotWord(o: int, v: int, ghost i: int, ghost k: int)
      requires Valid() && 0 <= i < geo.Slots() && lastread == geo.SlotBlk(i)
      requires 0 <= k <= DIRSIZE - 2 && o == geo.SlotOff(i) + k
      modifies this`dirty, buf2
      ensures Valid() && dirty && SameData(geo, old(L()), L())
      ensures M() == old(M()).(dir := old(M()).dir[i := Put16(old(M()).dir[i], k, v)])
    {
      ghost var was := L();
      SlotPlace(geo, i);
      BrwWord(o, v);
      DirWord(geo, was, i, k, v);
      MetaWriteKeepsData(geo, was, lastread, Put16(was[lastread], o, v));
    }

    method StoreSlotLong(o: int, v: int, ghost i: int, ghost k: int)
      requires Valid() && 0 <= i < geo.Slots() && lastread == geo.SlotBlk(i)
      requires 0 <= k <= DIRSIZE - 4 && o == geo.SlotOff(i) + k
      modifies this`dirty, buf2
      ensures Valid() && dirty && SameData(geo, old(L()), L())
      ensures M() == old(M()).(dir := old(M()).dir[i := Put32(old(M()).dir[i], k, v)])
    {
      ghost var was := L();
      SlotPlace(geo, i);
      BrwLong(o, v);
      DirLong(geo, was, i, k, v);
      MetaWriteKeepsData(geo, was, lastread, Put32(was[lastread], o, v));
    }

    /** bytefill, bytemove and the first brwword of popen, on the buffer.  */
    method BlankBytes(o: int, name: seq<byte>)
      requires buf2.Length == SECTORSIZE && 0 <= o <= SECTORSIZE - DIRSIZE && |name| == 11
      modifies buf2
      ensures buf2[..] == old(buf2[..o]) + Blank(name) + old(buf2[o + DIRSIZE..])
    {
      ghost var b0 := buf2[..];
      ByteFill(buf2, o, DIRSIZE);
      ByteMove(buf2, o, name);
      buf2[o + 0x1a] := 0;
      buf2[o + 0x1b] := 0;
      assert buf2[..] == b0[..o] + Blank(name) + b0[o + DIRSIZE..];
    }

    /** Those for a new slot i.  */
    method BlankSlot(o: int, name: seq<byte>, ghost i: int)
      requires Valid() && 0 <= i < geo.Slots() && lastread == geo.SlotBlk(i) && o == geo.SlotOff(i) && |name| == 11
      modifies this`dirty, buf2
      ensures Valid() && dirty && SameData(geo, old(L()), L())
      ensures M() == old(M()).(dir := old(M()).dir[i := Blank(name)])
    {
      hide Blank, MetaOf, SameData;
      ghost var was, b0 := L(), buf2[..];
      SlotPlace(geo, i);
      MetaOnDisk(geo, lastread);
      BlankBytes(o, name);
      dirty := true;
      ghost var b := buf2[..];
      assert L() == MetaWrite(geo, was, lastread, b);
      assert b[o..o + DIRSIZE] == Blank(name);
      hide Valid, L;
      DirPut(geo, was, i, b);
      MetaWriteKeepsData(geo, was, lastread, b);
    }

    /** A write of file data: the tables and the cached block are not
        concerned.  */
    method StoreData(n: int, b: array<byte>, ghost c: int, ghost s: int)
      requires Valid() && b.Length == SECTORSIZE && b != buf2
      requires geo.IsData(c) && 0 <= s < geo.Spc() && n == geo.DataBlk(c, s)
      modifies this`disk, this`trail
      ensures Valid() && M() == old(M())
      ensures old(trail) != [] && old(trail[|trail| - 1]) == old(disk) && Holds(geo, old(disk))
      ensures Grown(geo, old(trail), trail, MetaOf(geo, old(disk)))
      ensures Sector(geo, L(), c, s) == b[..]
      ensures forall c', s' :: geo.IsData(c') && 0 <= s' < geo.Spc() && !(c' == c && s' == s)
                ==> Sector(geo, L(), c', s') == Sector(geo, old(L()), c', s')
    {
      ghost var was, wasL := disk, L();
      RegionsApart(geo, c, s);
      WriteBlock(n, b);
      DataPut(geo, was, c, s, b[..]);
      DataPut(geo, wasL, c, s, b[..]);
      DataPutKeepsMirror(geo, was, n, b[..]);
      if lastread != -1 {
        MetaOnDisk(geo, lastread);
        assert L() == wasL[n := b[..]];
      }
      assert trail[..|old(trail)|] == old(trail);
    }
  }
}
