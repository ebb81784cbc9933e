/** How much of a FAT32 root directory the code looks at: the specification makes it a
    chain of clusters, and mounting takes the first one.  */
module Root {
  import opened Bytes
  import opened Arith
  import opened Layout
  import opened Fat
  import opened Content
  import opened Cache
  import opened Names
  import opened FileState
  import opened FileSystem
  import opened Mount

  /** `cl` is the chain of clusters that starts at `first`, terminated.  */
  ghost predicate RootChain(g: Geometry, fat: seq<int>, first: int, cl: seq<int>)
    requires |fat| == g.totclusters
  {
    && cl != [] && cl[0] == first && (forall k :: 0 <= k < |cl| ==> 2 <= cl[k] < g.totclusters)
    && (forall k {:trigger Linked(fat, cl, k)} :: 0 <= k < |cl| - 1 ==> Linked(fat, cl, k))
    && fat[cl[|cl| - 1]] >= g.EndOfChain()
  }

  function PerCluster(g: Geometry): (n: int)
    ensures n > 0
  {
    16 * g.Spc()
  }

  /** The byte addresses of all slots of the root directory: on FAT32 those of the
      clusters `cl`, one after the other.  */
  function RootSlots(g: Geometry, cl: seq<int>): seq<int> {
    if g.filesystem != 2 then SeenSlots(g)
    else seq(|cl| * PerCluster(g), i requires 0 <= i < |cl| * PerCluster(g) => RootAddr(g, cl, i))
  }

  function RootAddr(g: Geometry, cl: seq<int>, i: int): int
    requires 0 <= i < |cl| * PerCluster(g)
  {
    DivBelow(i, PerCluster(g), |cl|);
    SECTORSIZE * g.DataBlk(cl[i / PerCluster(g)], 0) + DIRSIZE * (i % PerCluster(g))
  }

  /** Those of the slots that the code looks at.  */
  function SeenSlots(g: Geometry): seq<int> {
    if g.Slots() <= 0 then [] else seq(g.Slots(), i => g.SlotAddr(i))
  }

  lemma RootFirst(g: Geometry, cl: seq<int>, i: int)
    requires 0 <= i < PerCluster(g) && cl != []
    ensures 0 <= i < |cl| * PerCluster(g) && RootAddr(g, cl, i) == SECTORSIZE * g.DataBlk(cl[0], 0) + DIRSIZE * i
  {
    var n := PerCluster(g);
    MulMono(1, |cl|, n);
    hide PerCluster;
    DivMod(0, n, i);
  }

  lemma SeenIs(c: Geometry, g: Geometry, cl: seq<int>)
    requires c.Slots() == PerCluster(g) && g.filesystem == 2 && cl != [] && g.rootdir == SECTORSIZE * g.DataBlk(cl[0], 0)
    ensures |SeenSlots(c)| == PerCluster(g) <= |RootSlots(g, cl)| == |cl| * PerCluster(g)
    ensures forall i :: 0 <= i < PerCluster(g) ==> RootSlots(g, cl)[i] - SeenSlots(c)[i] == g.rootdir - c.rootdir
  {
    MulMono(1, |cl|, PerCluster(g));
    forall i | 0 <= i < PerCluster(g)
      ensures RootSlots(g, cl)[i] - SeenSlots(c)[i] == g.rootdir - c.rootdir
    {
      RootFirst(g, cl, i);
      hide PerCluster, Geometry.DataBlk, Geometry.Slots;
    }
  }

  lemma RootCompare(c: Geometry, g: Geometry, fat: seq<int>, cl: seq<int>)
    requires c.Slots() == PerCluster(g) && g.filesystem == 2
    requires |fat| == g.totclusters <= g.EndOfChain() && cl != [] && g.rootdir == SECTORSIZE * g.DataBlk(cl[0], 0)
    requires RootChain(g, fat, cl[0], cl)
    ensures SeenSlots(c) == RootSlots(g, cl) <==> c.rootdir == g.rootdir && fat[cl[0]] >= g.EndOfChain()
    ensures c.rootdir == g.rootdir ==> SeenSlots(c) <= RootSlots(g, cl)
  {
    SeenIs(c, g, cl);
    assert fat[cl[0]] >= g.EndOfChain() <==> |cl| == 1 by {
      if |cl| > 1 {
        assert Linked(fat, cl, 0);
      }
    }
    var n, seen, all := PerCluster(g), SeenSlots(c), RootSlots(g, cl);
    if |cl| > 1 {
      MulMono(2, |cl|, n);
    }
    hide RootSlots, SeenSlots, PerCluster, RootChain, Geometry.Slots, Geometry.DataBlk;
    assert seen == all ==> seen[0] == all[0];
  }

  /** The root directory that the code looks at is the first cluster of the one that
      the volume has, if the number of that fits in a word; and it is all of it if
      besides that cluster is the last one.  */
  lemma RootWhole(b: Block, start: int, shift: nat, fat: seq<int>, cl: seq<int>)
    requires SecPerClus(b) > 0 && Pow2(shift) == SecPerClus(b) && FsType(b) != 0
    requires var g := Specified(b, start, shift);
             && |fat| == g.totclusters <= g.EndOfChain()
             && (FsType(b) == 2 ==> 0 <= RootClus(b) && RootChain(g, fat, RootClus(b), cl))
    ensures var g, c := Specified(b, start, shift), Computed(b, start, shift);
            && (SeenSlots(c) == RootSlots(g, cl) <==>
                  FsType(b) == 1 || (RootClus(b) < 0x1_0000 && fat[RootClus(b)] >= g.EndOfChain()))
            && (RootFits(b) ==> SeenSlots(c) <= RootSlots(g, cl))
  {
    var g, c := Specified(b, start, shift), Computed(b, start, shift);
    if FsType(b) == 2 {
      hide FsType, RootClus, RootSlots, SeenSlots, RootChain;
      RootRight(b, start, shift);
      assert g.rootdir == SECTORSIZE * g.DataBlk(RootClus(b), 0) && g.Spc() == SecPerClus(b);
      assert c.rootdirend - c.rootdir == DIRSIZE * PerCluster(g);
      assert c.Slots() == PerCluster(g);
      RootCompare(c, g, fat, cl);
    }
  }

  // -------------------------------------------------- the files behind it

  lemma RootOnDisk(g: Geometry, d: Disk, cl: seq<int>, i: int)
    requires Holds(g, d) && 0 <= i < |cl| * PerCluster(g) && forall k :: 0 <= k < |cl| ==> 2 <= cl[k] < g.totclusters
    ensures RootAddr(g, cl, i) % SECTORSIZE <= SECTORSIZE - DIRSIZE && 0 <= RootAddr(g, cl, i) / SECTORSIZE < |d|
  {
    var n := PerCluster(g);
    DivBelow(i, n, |cl|);
    var c, r := cl[i / n], i % n;
    MulMono(2, c, g.Spc());
    MulBelow(c, g.totclusters, g.Spc());
    InSector(g.DataBlk(c, 0), r);
  }

  lemma InSector(blk: int, r: nat)
    ensures var a := SECTORSIZE * blk + DIRSIZE * r;
            a / SECTORSIZE == blk + r / 16 && a % SECTORSIZE == DIRSIZE * (r % 16)
  {
  }

  function SlotAt(d: Disk, a: int): Slot
    requires a % SECTORSIZE <= SECTORSIZE - DIRSIZE && 0 <= a / SECTORSIZE < |d|
  {
    d[a / SECTORSIZE][a % SECTORSIZE..a % SECTORSIZE + DIRSIZE]
  }

  /** All slots of a FAT32 root directory.  */
  function RootTable(g: Geometry, d: Disk, cl: seq<int>): seq<Slot>
    requires Holds(g, d) && forall k :: 0 <= k < |cl| ==> 2 <= cl[k] < g.totclusters
  {
    seq(|cl| * PerCluster(g), i requires 0 <= i < |cl| * PerCluster(g) =>
      RootOnDisk(g, d, cl, i);
      SlotAt(d, RootAddr(g, cl, i)))
  }

  lemma RootShape(g: Geometry)
    requires g.Wf() && g.filesystem == 2
    ensures g.Slots() == PerCluster(g) && g.rootdir == SECTORSIZE * g.DataBlk(g.rootcluster, 0)
  {
    assert g.rootdirend - g.rootdir == DIRSIZE * PerCluster(g);
  }

  lemma SeenSlot(g: Geometry, d: Disk, cl: seq<int>, i: int)
    requires Holds(g, d) && g.filesystem == 2 && cl != [] && cl[0] == g.rootcluster && 0 <= i < g.Slots()
    requires forall k :: 0 <= k < |cl| ==> 2 <= cl[k] < g.totclusters
    ensures i < |RootTable(g, d, cl)| && RootTable(g, d, cl)[i] == DirSlot(g, d, i)
  {
    RootShape(g);
    RootFirst(g, cl, i);
    SlotPlace(g, i);
    hide Geometry.Wf, Geometry.DataBlk, PerCluster;
  }

  lemma RootPrefix(g: Geometry, d: Disk, cl: seq<int>, dir: seq<Slot>)
    requires Holds(g, d) && g.filesystem == 2 && cl != [] && cl[0] == g.rootcluster && dir == MetaOf(g, d).dir
    requires forall k :: 0 <= k < |cl| ==> 2 <= cl[k] < g.totclusters
    ensures |dir| == PerCluster(g) && dir <= RootTable(g, d, cl)
  {
    hide Geometry.Wf, RootTable, PerCluster, Geometry.Slots;
    RootShape(g);
    SeenSlot(g, d, cl, |dir| - 1);
    forall i | 0 <= i < |dir|
      ensures i < |RootTable(g, d, cl)| && RootTable(g, d, cl)[i] == dir[i]
    {
      SeenSlot(g, d, cl, i);
      hide DirSlot;
    }
    hide MetaOf;
    assert dir == RootTable(g, d, cl)[..|dir|];
  }

  lemma PrefixFiles(dir: seq<Slot>, all: seq<Slot>)
    requires dir <= all
    ensures forall i :: IsFile(dir, i) <==> i < |dir| && IsFile(all, i)
  {
    assert forall j :: 0 <= j < |dir| ==> all[j] == dir[j];
  }

  /** The files that the code knows of are those in the slots of the first cluster.
      Any file in a later one is missed.  */
  lemma FilesSeen(g: Geometry, d: Disk, cl: seq<int>)
    requires Holds(g, d) && g.filesystem == 2 && RootChain(g, MetaOf(g, d).fat, g.rootcluster, cl)
    ensures var dir, all := MetaOf(g, d).dir, RootTable(g, d, cl);
            && |dir| == PerCluster(g) && dir <= all
            && (forall i :: IsFile(dir, i) <==> i < PerCluster(g) && IsFile(all, i))
  {
    hide Geometry.Wf, RootTable, Linked, MetaOf, PerCluster;
    RootPrefix(g, d, cl, MetaOf(g, d).dir);
    PrefixFiles(MetaOf(g, d).dir, RootTable(g, d, cl));
    hide IsFile;
  }

  // -------------------------------------------------------- such a volume

  /** FAT32, clusters of one sector, the root directory in clusters 2 and 3.  */
  function TwoBoot(): Block {
    seq(512, i =>
      if i == 0x0c || i == 0x10 || i == 0x2c then 2 else if i == 0x0d || i == 0x0e || i == 0x24 then 1 else if i == 0x20 then 7
      else if i == 0x52 then 0x46 else if i == 0x53 then 0x41 else if i == 0x54 then 0x54
      else if i == 0x55 then 0x33 else if i == 0x56 then 50
      else if i == 0x1fe then 0x55 else if i == 0x1ff then 0xaa else 0)
  }

  function TwoFat(): Block {
    seq(512, i =>
      if i == 0 then 0xf8 else if i == 3 || i == 7 || i == 15 then 0x0f else if i < 8 || 12 <= i < 15 then 0xff
      else if i == 8 then 3 else 0)
  }

  /** Sixteen deleted slots.  */
  function DeadSlots(): Block { seq(512, i => if i % 32 == 0 then 0xe5 else 0) }

  function TheName(): (n: seq<byte>)
    ensures |n| == 11
  {
    seq(11, j => 65)
  }

  /** One empty file.  */
  function OneFile(): Block { seq(512, i => if 0 <= i < 11 then 65 else 0) }

  function TwoRoots(): (d: Disk)
    ensures |d| == 7
  {
    [TwoBoot(), TwoFat(), TwoFat(), DeadSlots(), OneFile(), DeadSlots(), DeadSlots()]
  }

  function TwoGeometry(): Geometry { Geometry(2, 1, 1, 1536, 2048, 1, 0, 6, 2) }

  lemma TwoFields()
    ensures var b := TwoBoot();
            && b[0x0d] == 1 && b[0x10] == 2 && b[0x3a] == 0 && b[0x56] == 50 && Le32(b, 0x52) == 0x3354_4146
            && Le16(b, 0x0b) == 512 && Le16(b, 0x1fe) == 0xaa55 && Le16(b, 0x0e) == 1 && Le16(b, 0x13) == 0
            && Le32(b, 0x20) == 7 && Le32(b, 0x24) == 1 && Le32(b, 0x2c) == 2 && Le16(b, 0x2c) == 2
  {
  }

  lemma TwoBootIs()
    ensures var b := TwoBoot();
            && Accepted(b) && ConsistentBoot(b, 0, 7) && RootFits(b) && BootAt(b) == 0
            && SecPerClus(b) == 1 && RootClus(b) == 2 && Computed(b, 0, 0) == Specified(b, 0, 0) == TwoGeometry()
  {
    var b := TwoBoot();
    TwoFields();
    hide TwoBoot, Le16, Le32;
  }

  lemma TwoEntries()
    ensures var b := TwoFat();
            && Le32(b, 0) == 0xffffff8 && Le32(b, 4) == 0xfffffff && Le32(b, 8) == 3 && Le32(b, 12) == 0xfffffff
            && Le32(b, 16) == 0 && Le32(b, 20) == 0
  {
  }

  lemma TwoTables()
    ensures var g, d := TwoGeometry(), TwoRoots();
            && Holds(g, d) && g.Slots() == 16 && Mirrored(g, d)
            && MetaOf(g, d).fat == [0xffffff8, 0xfffffff, 3, 0xfffffff, 0, 0]
            && (forall i :: 0 <= i < 16 ==> MetaOf(g, d).dir[i][0] == 0xe5)
  {
    var g, d := TwoGeometry(), TwoRoots();
    assert Pow2(0) == 1;
    TwoEntries();
    hide TwoFat, Le32, DeadSlots, TwoBoot, OneFile, Pow2;
    assert MetaOf(g, d).fat == [0xffffff8, 0xfffffff, 3, 0xfffffff, 0, 0];
    forall i | 0 <= i < 16
      ensures MetaOf(g, d).dir[i][0] == 0xe5
    {
      DeadHead(i);
      assert g.SlotBlk(i) == 3;
    }
  }

  lemma DeadHead(i: int)
    requires 0 <= i < 16
    ensures DeadSlots()[32 * i] == 0xe5
  {
  }

  lemma TwoConsistent(g: Geometry, d: Disk, m: Meta)
    requires g == TwoGeometry() && Holds(g, d) && m.fat == [0xffffff8, 0xfffffff, 3, 0xfffffff, 0, 0]
    requires |m.dir| == 16 && forall i :: 0 <= i < 16 ==> m.dir[i][0] == 0xe5
    ensures Consistent(g, m, map[], -1) && Shows(g, d, m, map[], -1, [], map[])
  {
    assert forall i :: !Live(m.dir, i);
    assert forall i :: !DirPtr(g, m, i);
    assert forall x :: FatPtr(g, m, x) ==> x == 2;
    hide First, Live, FatPtr, DirPtr, Special;
  }

  lemma TwoTable(g: Geometry, d: Disk)
    requires g == TwoGeometry() && d == TwoRoots() && Holds(g, d) && |MetaOf(g, d).dir| == 16
    requires forall i :: 0 <= i < 16 ==> MetaOf(g, d).dir[i][0] == 0xe5
    ensures var all := RootTable(g, d, [2, 3]);
            IsFile(all, 16) && Name(all[16]) == TheName()
  {
    var all := RootTable(g, d, [2, 3]);
    RootPrefix(g, d, [2, 3], MetaOf(g, d).dir);
    assert PerCluster(g) == 16 && |all| == 32;
    assert forall i :: 0 <= i < 16 ==> all[i][0] == 0xe5;
    hide MetaOf;
    assert all[16] == OneFile()[0..32] by {
      assert RootAddr(g, [2, 3], 16) == SECTORSIZE * 4;
    }
    hide RootTable;
    assert all[16][0] == 65 && all[16][11] == 0;
    assert Name(all[16]) == TheName();
  }

  /** The volume is accepted, and consistent without any file.  */
  lemma TwoRootsShown()
    ensures var b := TwoBoot();
            && TwoRoots()[0] == b && BootAt(b) == 0 && Accepted(b) && ConsistentBoot(b, 0, 7) && RootFits(b)
            && RootClus(b) == 2 && SecPerClus(b) == 1 && Specified(b, 0, 0) == TwoGeometry()
    ensures var g, d := TwoGeometry(), TwoRoots();
            && Holds(g, d) && Mirrored(g, d)
            && Consistent(g, MetaOf(g, d), map[], -1) && Shows(g, d, MetaOf(g, d), map[], -1, [], map[])
  {
    hide TwoBoot, TwoFat, DeadSlots, OneFile, FsType, Specified, Computed, ConsistentBoot, Accepted;
    TwoBootIs();
    TwoTables();
    TwoConsistent(TwoGeometry(), TwoRoots(), MetaOf(TwoGeometry(), TwoRoots()));
  }

  /** But its root directory has a file, in slot 16.  */
  lemma TwoRootsMissed()
    ensures var g, d := TwoGeometry(), TwoRoots();
            && Holds(g, d) && RootChain(g, MetaOf(g, d).fat, 2, [2, 3])
            && var all := RootTable(g, d, [2, 3]); IsFile(all, 16) && Name(all[16]) == TheName()
  {
    hide TwoBoot, TwoFat, DeadSlots, OneFile;
    TwoTables();
    hide TwoRoots;
    TwoTable(TwoGeometry(), TwoRoots());
  }

  /** Mounting succeeds there, and opening that file by its name answers that it is
      absent.  */
  method OpenMissed(f: Fsrw) returns (m: Result<int>, r: Result<int>)
    requires f.buf.Length == SECTORSIZE == f.vol.buf2.Length && f.buf != f.vol.buf2 && f.direntry == 0
    requires f.vol.padname.Length == 11 && f.vol.disk == TwoRoots()
    modifies f, f.buf, f.vol, f.vol.buf2, f.vol.padname
    ensures m == Ok(0) && r == Ok(-1)
    ensures f.Inv() && f.vol.geo == TwoGeometry() && f.vol.files == map[]
  {
    hide TwoBoot, TwoRoots, Specified, Computed, Accepted, ConsistentBoot, RootFits, Mirrored, Consistent, Shows, MetaOf, Fsrw.Inv;
    hide FsType, TheName, Printed, Padded;
    TwoRootsShown();
    m := MountExplicit(f, map[], map[]);
    Pow2One(f.vol.geo.clustershift);
    TheNamePadded();
    r := f.POpen(Printed(TheName()), MODE_R, 0);
  }

  lemma TheNamePadded()
    ensures Padded(Printed(TheName())) == TheName() && TheName()[0] == 65
  {
    PrintParse(TheName());
  }

  lemma Pow2One(k: nat)
    requires Pow2(k) == 1
    ensures k == 0
  {
  }
}
