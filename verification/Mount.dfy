/** Mounting: what mount_explicit makes of the boot sector, and that for a
    consistent volume it is the geometry that the FAT specification describes.  */
module Mount {
  import opened Bytes
  import opened Arith
  import opened Layout
  import opened Fat
  import opened Content
  import opened Cache
  import opened FileState
  import opened FileSystem

  /** 32-bit arithmetic.  */
  function Wrap(x: int): int { Long(x % 0x1_0000_0000) }

  /** The value of a long as an unsigned number; `>>` shifts zeros in.  */
  function Unsigned(x: int): int { x % 0x1_0000_0000 }

  /** The bitwise `&` of a byte and a long.  */
  function And(a: nat, b: int): (r: nat)
    ensures r <= a
  {
    if a == 0 then 0 else (if a % 2 == 1 && b % 2 == 1 then 1 else 0) + 2 * And(a / 2, b / 2)
  }

  lemma {:induction false} AndSelf(a: nat)
    ensures And(a, a) == a
  {
    if a > 0 {
      AndSelf(a / 2);
    }
  }

  ghost predicate IsPow2(a: nat) {
    exists j: nat :: a == Pow2(j)
  }

  lemma Pow2Half(a: nat)
    requires a > 1
    ensures IsPow2(a) <==> a % 2 == 0 && IsPow2(a / 2)
  {
    if IsPow2(a) {
      var j: nat :| a == Pow2(j);
      assert j > 0 && a / 2 == Pow2(j - 1);
    }
    if a % 2 == 0 && IsPow2(a / 2) {
      var j: nat :| a / 2 == Pow2(j);
      assert a == Pow2(j + 1);
    }
  }

  /** The test for a power of two: it lets 0 pass.  */
  lemma {:induction false} PowerTest(a: nat)
    ensures And(a, a - 1) == 0 <==> a == 0 || IsPow2(a)
  {
    if a == 1 {
      assert a == Pow2(0);
    } else if a > 1 {
      Pow2Half(a);
      if a % 2 == 0 {
        PowerTest(a / 2);
        assert (a - 1) / 2 == a / 2 - 1;
      } else {
        AndSelf(a / 2);
        assert (a - 1) / 2 == a / 2;
      }
    }
  }

  /** getfstype */
  function FsType(b: Block): (t: int)
    ensures 0 <= t <= 2
  {
    if Le32(b, 0x36) == 0x3154_4146 && b[0x3a] == 54 then 1
    else if Le32(b, 0x52) == 0x3354_4146 && b[0x56] == 50 then 2
    else 0
  }

  // ------------------------------------- boot sectors, as specified for FAT

  /** The fields of the BIOS parameter block.  */
  function SecPerClus(b: Block): nat { b[0x0d] }
  function RsvdSecCnt(b: Block): int { Le16(b, 0x0e) }
  function RootEntCnt(b: Block): int { Le16(b, 0x11) }
  function TotSec(b: Block): int { if Le16(b, 0x13) != 0 then Le16(b, 0x13) else Le32(b, 0x20) }
  function FatSz(b: Block): int { if FsType(b) == 2 then Le32(b, 0x24) else Le16(b, 0x16) }
  function RootClus(b: Block): int { Le32(b, 0x2c) }

  function RootDirSectors(b: Block): int { if FsType(b) == 2 then 0 else (32 * RootEntCnt(b) + 511) / 512 }
  function FirstDataSector(b: Block): int { RsvdSecCnt(b) + 2 * FatSz(b) + RootDirSectors(b) }

  function CountOfClusters(b: Block): int
    requires SecPerClus(b) > 0
  {
    (TotSec(b) - FirstDataSector(b)) / SecPerClus(b)
  }

  /** A boot sector that the code accepts.  */
  predicate Accepted(b: Block) {
    && FsType(b) != 0 && Le16(b, 0x0b) == SECTORSIZE && And(SecPerClus(b), SecPerClus(b) - 1) == 0
    && b[0x10] == 2 && Le16(b, 0x1fe) == 0xaa55
  }

  /** The boot sector of a consistent volume that starts at block `start` of a card
      of n blocks.  */
  predicate ConsistentLayout(b: Block, start: int, n: int) {
    && 0 <= start && SecPerClus(b) > 0 && RsvdSecCnt(b) > 0 && FatSz(b) > 0
    && 0 < FirstDataSector(b) <= TotSec(b) && start + TotSec(b) <= n
    && CountOfClusters(b) + 2 <= (if FsType(b) == 2 then 128 else 256) * FatSz(b)
    && CountOfClusters(b) + 2 <= (if FsType(b) == 2 then 0xffffff0 else 0xfff0)
    && (if FsType(b) == 2 then 2 <= RootClus(b) < CountOfClusters(b) + 2 else RootEntCnt(b) > 0)
  }

  /** Besides, its block numbers and the byte addresses of its tables fit in a
      positive long.  */
  predicate ConsistentBoot(b: Block, start: int, n: int) {
    && ConsistentLayout(b, start, n) && start + TotSec(b) < 0x8000_0000
    && (if FsType(b) == 2 then
          SECTORSIZE * (start + FirstDataSector(b) + (RootClus(b) - 2) * SecPerClus(b) + SecPerClus(b)) < 0x8000_0000
        else SECTORSIZE * (start + FirstDataSector(b)) < 0x8000_0000)
  }

  /** The geometry that the specification gives such a volume; of a FAT32 root
      directory, which is a chain of clusters, only the first cluster (the whole of it
      is `Root.RootSlots`).  */
  function Specified(b: Block, start: int, shift: nat): Geometry
    requires SecPerClus(b) > 0
  {
    var fs, fat1 := FsType(b), start + RsvdSecCnt(b);
    var data := start + FirstDataSector(b) - 2 * SecPerClus(b);
    var root := if fs == 2 then SECTORSIZE * (data + RootClus(b) * SecPerClus(b)) else SECTORSIZE * (fat1 + 2 * FatSz(b));
    Geometry(fs, fat1, FatSz(b), root,
             root + if fs == 2 then SECTORSIZE * SecPerClus(b) else DIRSIZE * RootEntCnt(b),
             data, shift, CountOfClusters(b) + 2, if fs == 2 then RootClus(b) else 0)
  }

  /** The cluster that the code takes for the first one of the root directory: it
      reads the low word only.  */
  function RootRead(b: Block): int { Le16(b, 0x2c) }

  /** The geometry that the code computes: the root directory is that of the cluster
      read.  */
  function Computed(b: Block, start: int, shift: nat): Geometry
    requires SecPerClus(b) > 0
  {
    var g := Specified(b, start, shift);
    if g.filesystem != 2 then g
    else
      var root := SECTORSIZE * (g.dataregion + RootRead(b) * SecPerClus(b));
      g.(rootdir := root, rootdirend := root + SECTORSIZE * SecPerClus(b), rootcluster := RootRead(b))
  }

  /** When that cluster is the specified one: on FAT16, where the root directory is no
      cluster, and on FAT32 exactly if the number of its first cluster fits in a
      word.  */
  predicate RootFits(b: Block) { FsType(b) != 2 || RootClus(b) < 0x1_0000 }

  lemma RootRight(b: Block, start: int, shift: nat)
    requires SecPerClus(b) > 0 && (FsType(b) == 2 ==> 0 <= RootClus(b))
    ensures Computed(b, start, shift) == Specified(b, start, shift) <==> RootFits(b)
    ensures Computed(b, start, shift).rootdir == Specified(b, start, shift).rootdir <==> RootFits(b)
  {
    if FsType(b) == 2 {
      var lw, c, k := RootRead(b), RootClus(b), SecPerClus(b);
      assert lw == c <==> c < 0x1_0000;
      hide FsType, RootClus, RootRead;
      if lw < c {
        MulBelow(lw, c, k);
      } else if c < lw {
        MulBelow(c, lw, k);
      }
    }
  }

  /** A FAT32 volume of 65600 clusters of one sector, with its root directory in
      cluster $10002.  */
  function HighRoot(): Block {
    seq(512, i =>
      if i == 0x0c then 2 else if i == 0x0d || i == 0x0e then 1 else if i == 0x10 then 2
      else if i == 0x20 then 0x43 else if i == 0x21 then 4 else if i == 0x22 then 1
      else if i == 0x24 then 1 else if i == 0x25 then 2
      else if i == 0x2c then 2 else if i == 0x2e then 1
      else if i == 0x52 then 0x46 else if i == 0x53 then 0x41 else if i == 0x54 then 0x54
      else if i == 0x55 then 0x33 else if i == 0x56 then 50
      else if i == 0x1fe then 0x55 else if i == 0x1ff then 0xaa else 0)
  }

  lemma HighFields()
    ensures var b := HighRoot();
            && b[0x0d] == 1 && b[0x10] == 2 && b[0x3a] == 0 && b[0x56] == 50 && Le32(b, 0x52) == 0x3354_4146
            && Le16(b, 0x0b) == 512 && Le16(b, 0x1fe) == 0xaa55 && Le16(b, 0x0e) == 1 && Le16(b, 0x13) == 0
            && Le32(b, 0x20) == 66627 && Le32(b, 0x24) == 513 && Le32(b, 0x2c) == 0x1_0002 && Le16(b, 0x2c) == 2
  {
  }

  /** The code accepts it and takes the first data sector for the root directory.  */
  lemma HighRootMissed()
    ensures var b := HighRoot();
            && Accepted(b) && ConsistentBoot(b, 0, 66627) && FsType(b) == 2 && SecPerClus(b) == 1 && RootClus(b) == 0x1_0002
            && Specified(b, 0, 0).rootdir == SECTORSIZE * 66563 && Computed(b, 0, 0).rootdir == SECTORSIZE * 1027
  {
    var b := HighRoot();
    HighFields();
    hide HighRoot, Le16, Le32;
  }

  lemma CountFits(b: Block)
    requires SecPerClus(b) > 0 && FirstDataSector(b) <= TotSec(b)
    ensures 0 <= CountOfClusters(b) && CountOfClusters(b) * SecPerClus(b) <= TotSec(b) - FirstDataSector(b)
  {
    QuotientBelow(TotSec(b) - FirstDataSector(b), SecPerClus(b));
  }

  lemma QuotientBelow(n: nat, k: nat)
    requires k > 0
    ensures 0 <= n / k && n / k * k <= n
  {
    assert n == n / k * k + n % k;
    if n / k < 0 {
      MulMono(n / k, -1, k);
    }
  }

  /** That geometry is well formed and on the card: the regions of a consistent
      volume are apart.  */
  lemma SpecifiedWf(b: Block, start: int, shift: nat, d: Disk)
    requires ConsistentBoot(b, start, |d|) && FsType(b) != 0 && Pow2(shift) == SecPerClus(b)
    ensures Holds(Specified(b, start, shift), d)
  {
    CountFits(b);
    var fs, k, c, n, r, z, f, t, e := FsType(b), SecPerClus(b), RootClus(b), CountOfClusters(b), RsvdSecCnt(b), FatSz(b), FirstDataSector(b), TotSec(b), RootEntCnt(b);
    assert fs == 1 || fs == 2;
    assert 0 <= e && f == r + 2 * z + (if fs == 2 then 0 else (32 * e + 511) / 512);
    hide CountOfClusters, TotSec, RootDirSectors, FatSz, RsvdSecCnt, RootEntCnt, SecPerClus, RootClus, FsType, FirstDataSector, Pow2;
    if fs == 2 {
      Wf32(Specified(b, start, shift), start, r, z, f, k, n, c, t);
    } else {
      Wf16(Specified(b, start, shift), start, r, z, f, k, n, e, t);
    }
  }

  lemma Wf32(g: Geometry, start: int, r: int, z: int, f: int, k: int, n: int, c: int, t: int)
    requires 0 <= start && 0 < r && 0 < z && f == r + 2 * z && k > 0 && 2 <= c < n + 2 && 0 <= n
    requires n + 2 <= 128 * z && n + 2 <= 0xffffff0 && f + n * k <= t
    requires SECTORSIZE * (start + f + (c - 2) * k + k) < 0x8000_0000
    requires g.filesystem == 2 && g.fat1 == start + r && g.sectorsperfat == z && g.dataregion == start + f - 2 * k
    requires g.rootdir == SECTORSIZE * (g.dataregion + c * k) && g.rootdirend == g.rootdir + SECTORSIZE * k
    requires g.Spc() == k && g.totclusters == n + 2 && g.rootcluster == c
    ensures g.Wf() && g.EndBlk() <= start + t
  {
    hide Geometry.Spc;
    MulMono(2, c, k);
    var p, q := c * k, n * k;
    assert (c - 2) * k == p - 2 * k && (n + 2) * k == q + 2 * k;
    assert g.DataBlk(c, 0) == g.dataregion + p && g.DataBlk(2, 0) == start + f && g.EndBlk() == start + f + q;
    hide Geometry.DataBlk, Geometry.EndBlk;
    Root32(start, f, k, p);
  }

  lemma Root32(start: int, f: int, k: int, p: int)
    requires 0 <= start && 0 < f && 0 < k && 2 * k <= p && SECTORSIZE * (start + f + (p - 2 * k) + k) < 0x8000_0000
    ensures var root := SECTORSIZE * (start + f - 2 * k + p);
            && root % SECTORSIZE == 0 && SECTORSIZE * (start + f) <= root < root + SECTORSIZE * k < 0x8000_0000
            && (root + SECTORSIZE * k - root) % DIRSIZE == 0
  {
    assert SECTORSIZE * k == DIRSIZE * (16 * k);
  }

  lemma Wf16(g: Geometry, start: int, r: int, z: int, f: int, k: int, n: int, e: int, t: int)
    requires 0 <= start && 0 < r && 0 < z && f == r + 2 * z + (32 * e + 511) / 512 && k > 0 && 0 <= n && 0 < e
    requires n + 2 <= 256 * z && n + 2 <= 0xfff0 && f + n * k <= t
    requires SECTORSIZE * (start + f) < 0x8000_0000
    requires g.filesystem == 1 && g.fat1 == start + r && g.sectorsperfat == z && g.dataregion == start + f - 2 * k
    requires g.rootdir == SECTORSIZE * (g.fat1 + 2 * z) && g.rootdirend == g.rootdir + DIRSIZE * e
    requires g.Spc() == k && g.totclusters == n + 2 && g.rootcluster == 0
    ensures g.Wf() && g.EndBlk() <= start + t
  {
    hide Geometry.Spc;
    assert (n + 2) * k == n * k + 2 * k;
    assert g.DataBlk(2, 0) == start + f;
  }

  lemma HalfTimes(h: int, p: int)
    ensures h * (2 * p) == 2 * h * p
  {
  }

  /** The loop that turns the sectors per cluster into a shift.  */
  method ClusterShift(sectorspercluster: nat) returns (clustershift: nat)
    requires And(sectorspercluster, sectorspercluster - 1) == 0
    ensures Pow2(clustershift) == if sectorspercluster == 0 then 1 else sectorspercluster
  {
    PowerTest(sectorspercluster);
    var s := sectorspercluster;
    clustershift := 0;
    assert s * Pow2(0) == s;
    while s > 1
      invariant s == sectorspercluster || s > 0
      invariant s == 0 || IsPow2(s)
      invariant s * Pow2(clustershift) == sectorspercluster
      invariant s == 0 ==> clustershift == 0
      decreases s
    {
      Pow2Half(s);
      assert s == 2 * (s / 2);
      HalfTimes(s / 2, Pow2(clustershift));
      clustershift := clustershift + 1;
      s := s / 2;
    }
  }

  /** Numbers that fit in a positive long are not changed by 32-bit arithmetic.  */
  lemma NoWrap(x: int)
    requires -0x8000_0000 <= x < 0x8000_0000
    ensures Wrap(x) == x && (x >= 0 ==> Unsigned(x) == x)
  {
  }

  /** The arithmetic of mounting a FAT32 volume; sectors are counted from the
      start of the card.  */
  method Measure32(b: Block, start: int, shift: nat, n: int) returns (g: Geometry)
    requires FsType(b) == 2
    ensures g.filesystem == 2 && g.clustershift == shift
    ensures ConsistentBoot(b, start, n) && Pow2(shift) == SecPerClus(b) ==>
              g == Computed(b, start, shift).(totclusters := 0)
  {
    var fat1 := Wrap(start + Le16(b, 0x0e));
    var rootentries := 16 * Pow2(shift);
    var sectorsperfat := Le32(b, 0x24);
    var dataregion := Wrap(fat1 + 2 * sectorsperfat - 2 * Pow2(shift));
    var rootdir := Wrap((dataregion + Le16(b, 0x2c) * Pow2(shift)) * SECTORSIZE);
    var rootdirend := Wrap(rootdir + rootentries * DIRSIZE);
    g := Geometry(2, fat1, sectorsperfat, rootdir, rootdirend, dataregion, shift, 0, Le16(b, 0x2c));
    if ConsistentBoot(b, start, n) && Pow2(shift) == SecPerClus(b) {
      LowWord(b, 0x2c);
      LowerRoot(start, FirstDataSector(b), SecPerClus(b), RootRead(b), RootClus(b));
      Wraps32(start, RsvdSecCnt(b), FatSz(b), FirstDataSector(b), TotSec(b), SecPerClus(b), RootRead(b));
    }
  }

  /** The cluster read is at most the one meant, so its address fits too.  */
  lemma LowerRoot(start: int, f: int, k: int, c: int, c': int)
    requires 0 <= c <= c' && k > 0 && SECTORSIZE * (start + f + (c' - 2) * k + k) < 0x8000_0000
    ensures SECTORSIZE * (start + f + (c - 2) * k + k) < 0x8000_0000
  {
    MulMono(c - 2, c' - 2, k);
  }

  lemma Wraps32(start: int, r: int, z: int, f: int, t: int, k: int, c: int)
    requires 0 <= start && 0 < r && 0 < z && f == r + 2 * z && 0 < k < 256 && 0 <= c && f <= t && start + t < 0x8000_0000
    requires SECTORSIZE * (start + f + (c - 2) * k + k) < 0x8000_0000
    ensures Wrap(start + r) == start + r && Wrap(start + r + 2 * z - 2 * k) == start + f - 2 * k
    ensures Wrap((start + f - 2 * k + c * k) * SECTORSIZE) == SECTORSIZE * (start + f - 2 * k + c * k)
    ensures Wrap(SECTORSIZE * (start + f - 2 * k + c * k) + 16 * k * DIRSIZE) == SECTORSIZE * (start + f - 2 * k + c * k) + SECTORSIZE * k
  {
    MulMono(0, c, k);
    assert (c - 2) * k == c * k - 2 * k;
    var p := c * k;
    NoWrap(start + r);
    NoWrap(start + f - 2 * k);
    NoWrap(SECTORSIZE * (start + f - 2 * k + p));
    NoWrap(SECTORSIZE * (start + f - 2 * k + p) + SECTORSIZE * k);
    assert 16 * k * DIRSIZE == SECTORSIZE * k;
    hide Wrap;
  }

  lemma LowWord(b: Block, o: int)
    requires 0 <= o <= SECTORSIZE - 4 && 0 <= Le32(b, o)
    ensures 0 <= Le16(b, o) <= Le32(b, o)
  {
  }

  /** The arithmetic of mounting a FAT16 volume.  */
  method Measure16(b: Block, start: int, shift: nat, n: int) returns (g: Geometry)
    requires FsType(b) == 1
    ensures g.filesystem == 1 && g.clustershift == shift
    ensures ConsistentBoot(b, start, n) && Pow2(shift) == SecPerClus(b) ==>
              g == Computed(b, start, shift).(totclusters := 0)
  {
    var fat1 := Wrap(start + Le16(b, 0x0e));
    var rootentries := Le16(b, 0x11);
    var sectorsperfat := Le16(b, 0x16);
    var rootdir := Wrap((fat1 + 2 * sectorsperfat) * SECTORSIZE);
    var rootdirend := Wrap(rootdir + rootentries * DIRSIZE);
    var dataregion := Wrap(1 + Unsigned(rootdirend - 1) / SECTORSIZE - 2 * Pow2(shift));
    g := Geometry(1, fat1, sectorsperfat, rootdir, rootdirend, dataregion, shift, 0, 0);
    if ConsistentBoot(b, start, n) && Pow2(shift) == SecPerClus(b) {
      var k, f, e := SecPerClus(b), FirstDataSector(b), RootEntCnt(b);
      var root := SECTORSIZE * (start + RsvdSecCnt(b) + 2 * FatSz(b));
      NoWrap(start + RsvdSecCnt(b));
      NoWrap(root);
      NoWrap(root + DIRSIZE * e);
      NoWrap(root + DIRSIZE * e - 1);
      assert 1 + (root + DIRSIZE * e - 1) / SECTORSIZE == start + f;
      NoWrap(start + f - 2 * k);
    }
  }

  /** All that is computed of the volume but the number of clusters.  */
  method Measure(b: Block, start: int, shift: nat, n: int) returns (g: Geometry, sectors: int)
    requires FsType(b) != 0
    ensures sectors == TotSec(b) && g.filesystem == FsType(b) && g.clustershift == shift
    ensures ConsistentBoot(b, start, n) && Pow2(shift) == SecPerClus(b) ==>
              g == Computed(b, start, shift).(totclusters := 0)
  {
    hide Specified, Computed, ConsistentBoot, Le16, Le32, FsType;
    sectors := Le16(b, 0x13);
    if sectors == 0 {
      sectors := Le32(b, 0x20);
    }
    if FsType(b) == 2 {
      g := Measure32(b, start, shift, n);
    } else {
      g := Measure16(b, start, shift, n);
    }
  }

  lemma Cluster32Bits(sectors: int, start: int, f: int, k: int)
    requires 0 < k < 256 && 0 <= start && 3 <= f <= sectors && start + sectors < 0x8000_0000
    ensures var data := start + f - 2 * k;
            Wrap(Unsigned(sectors - data + start) / k) == (sectors - f) / k + 2
  {
    var n := sectors - f;
    QuotientSmall(n, k);
    QuotientMore(n, k);
    assert sectors - (start + f - 2 * k) + start == n + 2 * k;
    NoWrap(n / k + 2);
    UnsignedSmall(n + 2 * k);
    hide Wrap, Unsigned;
  }

  lemma UnsignedSmall(x: int)
    requires 0 <= x < 0x1_0000_0000
    ensures Unsigned(x) == x
  {
  }

  lemma QuotientMore(n: nat, k: nat)
    requires k > 0
    ensures (n + 2 * k) / k == n / k + 2
  {
    var q, r := n / k, n % k;
    assert n == q * k + r;
    assert (q + 2) * k + r == n + 2 * k;
    DivMod(q + 2, k, r);
  }

  lemma QuotientSmall(n: nat, k: nat)
    requires k > 0
    ensures 0 <= n / k <= n
  {
    QuotientBelow(n, k);
    MulMono(1, k, n / k);
    assert k * (n / k) == n / k * k;
  }

  /** The block that holds the boot sector: the first one, or the start of the first
      partition.  */
  function BootAt(b0: Block): int {
    if FsType(b0) > 0 then 0 else Le32(b0, 0x1c6)
  }

  /** What mounting answers: the checks in their order.  */
  function MountResult(b: Block): Result<int> {
    if FsType(b) == 0 then Abort(-20)
    else if Le16(b, 0x0b) != SECTORSIZE then Abort(-21)
    else if And(SecPerClus(b), SecPerClus(b) - 1) != 0 then Abort(-22)
    else if b[0x10] != 2 then Abort(-23)
    else if Le16(b, 0x1fe) != 0xaa55 then Abort(-24)
    else Ok(0)
  }

  /** Mounts the volume on the card.  Its first partition has to start on the card.
      Given that the volume is consistent, `chains` and `files` say what the slots hold
      that the code looks at; `Root.RootWhole` says when these are all there are.  */
  method MountExplicit(f: Fsrw, ghost chains: map<int, seq<int>>, ghost files: Files) returns (r: Result<int>)
    requires f.buf.Length == SECTORSIZE == f.vol.buf2.Length && f.buf != f.vol.buf2 && f.direntry == 0
    requires |f.vol.disk| > 0 && 0 <= BootAt(f.vol.disk[0]) < |f.vol.disk|
    modifies f, f.buf, f.vol
    ensures f.vol.disk == old(f.vol.disk) && f.cur == Closed && f.direntry == 0 && !f.vol.dirty && f.vol.lastread == -1
    ensures var b := f.vol.disk[BootAt(f.vol.disk[0])];
            r == MountResult(b) && (r == Result.Ok(0) <==> Accepted(b))
    ensures var start := BootAt(f.vol.disk[0]);
            var b, g := f.vol.disk[start], f.vol.geo;
            Accepted(b) && ConsistentBoot(b, start, |f.vol.disk|) ==>
              && Pow2(g.clustershift) == SecPerClus(b) && g == Computed(b, start, g.clustershift)
              && (g == Specified(b, start, g.clustershift) <==> RootFits(b))
              && (RootFits(b) ==> Holds(g, f.vol.disk))
              && (RootFits(b) && Mirrored(g, f.vol.disk) && Consistent(g, MetaOf(g, f.vol.disk), chains, -1)
                  && Shows(g, f.vol.disk, MetaOf(g, f.vol.disk), chains, -1, [], files)
                  ==> f.Inv() && f.vol.chains == chains && f.vol.files == files)
  {
    hide Specified, Computed, RootFits, ConsistentBoot, Mirrored, Consistent, Shows, MetaOf, Geometry.Wf, Fsrw.Inv, And, FsType, Le16, Le32;
    var vol := f.vol;
    f.Clear();
    vol.lastread := -1;
    vol.dirty := false;
    vol.ReadBlock(0, f.buf);
    var start := 0;
    if FsType(f.buf[..]) <= 0 {
      start := Le32(f.buf[..], 0x1c6);
      vol.ReadBlock(start, f.buf);
    }
    var b := f.buf[..];
    vol.geo := vol.geo.(filesystem := FsType(b));
    if FsType(b) == 0 {
      return Abort(-20);
    }
    if Le16(b, 0x0b) != SECTORSIZE {
      return Abort(-21);
    }
    var sectorspercluster: nat := b[0x0d];
    if And(sectorspercluster, sectorspercluster - 1) != 0 {
      return Abort(-22);
    }
    var shift := ClusterShift(sectorspercluster);
    if b[0x10] != 2 {
      return Abort(-23);
    }
    var g, sectors := Measure(b, start, shift, |vol.disk|);
    vol.geo := g.(totclusters := vol.geo.totclusters);
    if Le16(b, 0x1fe) != 0xaa55 {
      return Abort(-24);
    }
    vol.geo := vol.geo.(totclusters := Wrap(Unsigned(sectors - g.dataregion + start) / Pow2(shift)));
    vol.chains, vol.files, vol.trail, vol.exposed := chains, files, [vol.disk], false;
    MountGeometry(b, start, shift, vol.disk, g, vol.geo, sectors);
    MountInv(f);
    r := Result.Ok(0);
  }

  lemma MountGeometry(b: Block, start: int, shift: nat, d: Disk, g: Geometry, g': Geometry, sectors: int)
    requires FsType(b) != 0 && Pow2(shift) == (if SecPerClus(b) == 0 then 1 else SecPerClus(b))
    requires sectors == TotSec(b)
    requires ConsistentBoot(b, start, |d|) && Pow2(shift) == SecPerClus(b) ==> g == Computed(b, start, shift).(totclusters := 0)
    requires g' == g.(totclusters := Wrap(Unsigned(sectors - g.dataregion + start) / Pow2(shift)))
    ensures ConsistentBoot(b, start, |d|) ==>
              && Pow2(shift) == SecPerClus(b) && g' == Computed(b, start, shift)
              && (g' == Specified(b, start, shift) <==> RootFits(b)) && (RootFits(b) ==> Holds(g', d))
  {
    if ConsistentBoot(b, start, |d|) {
      hide Wrap, Unsigned, Pow2, FsType;
      Cluster32Bits(sectors, start, FirstDataSector(b), SecPerClus(b));
      SpecifiedWf(b, start, shift, d);
      RootRight(b, start, shift);
      hide Holds;
    }
  }

  lemma MountInv(f: Fsrw)
    requires f.buf.Length == SECTORSIZE == f.vol.buf2.Length && f.buf != f.vol.buf2 && f.direntry == 0 && f.cur == Closed
    requires f.vol.lastread == -1 && !f.vol.dirty && f.vol.trail == [f.vol.disk] && !f.vol.exposed
    ensures var g, d := f.vol.geo, f.vol.disk;
            (&& Holds(g, d) && Mirrored(g, d) && Consistent(g, MetaOf(g, d), f.vol.chains, -1)
             && Shows(g, d, MetaOf(g, d), f.vol.chains, -1, [], f.vol.files)) ==> f.Inv()
  {
    hide Mirrored, MetaOf, Geometry.Wf, Shows, Sound;
  }

  /** On a mounted consistent volume every sector of every cluster has a block of
      its own, inside the volume and apart from both FATs and from the FAT16 root
      directory.  */
  lemma MountedApart(b: Block, start: int, shift: nat, d: Disk, c: int, s: int, c': int, s': int)
    requires Accepted(b) && ConsistentLayout(b, start, |d|) && Pow2(shift) == SecPerClus(b)
    requires var g := Specified(b, start, shift);
             2 <= c < g.totclusters && 2 <= c' < g.totclusters && 0 <= s < SecPerClus(b) && 0 <= s' < SecPerClus(b)
    ensures var g := Specified(b, start, shift);
            && start + RsvdSecCnt(b) + 2 * FatSz(b) <= g.DataBlk(c, s) < start + TotSec(b)
            && (FsType(b) == 1 ==> g.rootdirend <= SECTORSIZE * g.DataBlk(c, s))
            && (g.DataBlk(c, s) == g.DataBlk(c', s') ==> c == c' && s == s')
  {
    var g, k := Specified(b, start, shift), SecPerClus(b);
    CountFits(b);
    assert g.Spc() == k && g.totclusters == CountOfClusters(b) + 2 && g.dataregion == start + FirstDataSector(b) - 2 * k;
    assert FsType(b) == 1 ==> g.rootdirend <= SECTORSIZE * (start + FirstDataSector(b));
    hide Pow2, CountOfClusters, TotSec, FatSz, FsType, RootDirSectors, RsvdSecCnt, RootEntCnt, Specified, SecPerClus, Geometry.Spc;
    PlaceArith(start + FirstDataSector(b), c, s, k, CountOfClusters(b));
    if g.DataBlk(c, s) == g.DataBlk(c', s') {
      SectorsApart(g, c, s, c', s');
    }
  }

  lemma PlaceArith(f: int, c: int, s: int, k: int, n: int)
    requires 2 <= c < n + 2 && 0 <= s < k
    ensures f <= f - 2 * k + c * k + s < f + n * k
  {
    MulMono(2, c, k);
    MulBelow(c, n + 2, k);
    assert (n + 2) * k == n * k + 2 * k;
  }

  lemma {:induction false} Pow2Byte(shift: nat)
    ensures if shift <= 7 then Pow2(shift) <= 128 else Pow2(shift) >= 256
  {
    if shift <= 7 {
      assert Pow2(1) == 2 && Pow2(3) == 8 && Pow2(5) == 32 && Pow2(7) == 128;
    } else if shift == 8 {
      assert Pow2(2) == 4 && Pow2(4) == 16 && Pow2(6) == 64 && Pow2(8) == 256;
    } else {
      Pow2Byte(shift - 1);
    }
  }

  lemma RootReadTimes(c: int, k: int)
    requires 0 <= c < 0x1_0000 && 0 <= k <= 128
    ensures 0 <= c * k <= 0x7f_ff80
  {
    MulMono(0, c, k);
    MulMono(c, 0xffff, k);
    MulMono(k, 128, 0xffff);
  }

  /** When the listing of the root directory starts at a cluster number: always on
      FAT32, and on FAT16 exactly if the root directory takes two clusters or
      less.  */
  lemma Listable(b: Block, start: int, shift: nat, n: int)
    requires Accepted(b) && ConsistentLayout(b, start, n) && Pow2(shift) == SecPerClus(b)
    ensures var g := Specified(b, start, shift);
            g.rootdir >= SECTORSIZE * g.dataregion <==> FsType(b) == 2 || RootDirSectors(b) <= 2 * SecPerClus(b)
    ensures var g := Computed(b, start, shift);
            var off := g.rootdir - SECTORSIZE * g.dataregion;
            && -0x1_0000_0000 <= off < 0x1_0000_0000 && g.ClusterSize() <= 0x8000_0000
            && (0 <= off <==> FsType(b) == 2 || RootDirSectors(b) <= 2 * SecPerClus(b))
  {
    var g, k := Specified(b, start, shift), SecPerClus(b);
    if FsType(b) == 2 {
      MulMono(0, RootClus(b), k);
      MulMono(0, RootRead(b), k);
    }
    Pow2Byte(shift);
    RootReadTimes(RootRead(b), k);
    hide Pow2, CountOfClusters, TotSec, FatSz, FsType, RsvdSecCnt, RootDirSectors;
  }

  /** A FAT16 volume with 512 root directory entries and clusters of four sectors.  */
  function WideRoot(): Block {
    seq(512, i =>
      if i == 0x0c then 2 else if i == 0x0d then 4 else if i == 0x0e then 1 else if i == 0x10 then 2
      else if i == 0x12 then 2 else if i == 0x13 then 0xe1 else if i == 0x14 then 0x9c else if i == 0x16 then 64
      else if i == 0x36 then 0x46 else if i == 0x37 then 0x41 else if i == 0x38 then 0x54 else if i == 0x39 then 0x31
      else if i == 0x3a then 54
      else if i == 0x1fe then 0x55 else if i == 0x1ff then 0xaa else 0)
  }

  lemma WideFields()
    ensures var b := WideRoot();
            && b[0x0d] == 4 && b[0x10] == 2 && b[0x3a] == 54 && Le32(b, 0x36) == 0x3154_4146
            && Le16(b, 0x0b) == 512 && Le16(b, 0x1fe) == 0xaa55 && Le16(b, 0x0e) == 1 && Le16(b, 0x13) == 40161
            && Le16(b, 0x16) == 64 && Le16(b, 0x11) == 512
  {
  }

  /** It is accepted and consistent, and opendir does not list it.  */
  lemma WideRootMissed()
    ensures var b := WideRoot();
            && Accepted(b) && ConsistentBoot(b, 0, 40161) && FsType(b) == 1 && RootDirSectors(b) == 32 && SecPerClus(b) == 4
            && Computed(b, 0, 2).rootdir - SECTORSIZE * Computed(b, 0, 2).dataregion == -24 * SECTORSIZE
  {
    var b := WideRoot();
    WideFields();
    assert And(0, 1) == 0 && And(1, 0) == 0 && And(2, 1) == 0 && And(4, 3) == 0;
    hide WideRoot, Le16, Le32;
  }
}
