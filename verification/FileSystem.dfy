/** One open file on a volume: the per-object variables of fsrw and the methods
    that read, write, open and close.  */
module FileSystem {
  import opened Bytes
  import opened Arith
  import opened Layout
  import opened Fat
  import opened Content
  import opened Updates
  import opened Counting
  import opened Cache
  import opened Names
  import opened Listing
  import opened FileState
  import opened FreeSearch

  class Fsrw {
    const vol: Volume
    const buf: array<byte>
    var fclust: int
    var filesize: int
    var floc: int
    var frem: int
    var bufat: int
    var bufend: int
    var direntry: int
    var writelink: int
    var fatptr: int
    var firstcluster: int
    ghost var cur: Mode

    /** All variables start at 0: no file is open.  */
    constructor (vol: Volume)
      ensures this.vol == vol && fresh(buf) && buf.Length == SECTORSIZE
      ensures direntry == 0 && bufat == bufend == floc == frem == filesize == 0 && cur == Closed
    {
      this.vol := vol;
      buf := new byte[SECTORSIZE];
      fclust, filesize, floc, frem, bufat, bufend := 0, 0, 0, 0, 0, 0;
      direntry, writelink, fatptr, firstcluster, cur := 0, 0, 0, 0, Closed;
    }

    // -------------------------------------------------------------- invariant

    ghost function W(): int
      reads this
    {
      if cur.Writing? then cur.slot else -1
    }

    /** The chain of the open file.  */
    ghost function Chain(): seq<int>
      reads this, vol
    {
      if !cur.Closed? && cur.slot in vol.chains then vol.chains[cur.slot] else []
    }

    /** The bytes of the file open for writing, the buffered ones included.  */
    ghost function Pending(): seq<byte>
      reads this, buf, vol, vol.buf2
    {
      if cur.Writing? && vol.Valid() && 0 <= bufat <= buf.Length then
        FileData(vol.geo, vol.L(), Chain(), floc) + buf[..bufat]
      else []
    }

    /** The name of the open file.  */
    ghost function Key(): seq<byte>
      reads this, vol, vol.buf2
    {
      if !cur.Closed? && vol.Valid() && 0 <= cur.slot < |vol.M().dir| then Name(vol.M().dir[cur.slot]) else []
    }

    /** How many bytes the open file and the free clusters hold together.  */
    ghost function Capacity(): int
      reads this, vol, vol.buf2
    {
      if vol.Valid() then Room(vol.geo, |Chain()| + |FreeSet(vol.geo, vol.M().fat)|) else 0
    }

    /** The clusters that are free or belong to a file.  */
    ghost function Clusters(): set<int>
      reads vol, vol.buf2
    {
      if vol.Valid() then Pool(vol.geo, vol.M(), vol.chains) else {}
    }

    /** How many clusters are free.  */
    ghost function Free(): (n: int)
      reads vol, vol.buf2
      ensures n >= 0
    {
      if vol.Valid() then |FreeSet(vol.geo, vol.M().fat)| else 0
    }

    /** How many clusters belong to empty files.  */
    ghost function Wasted(): nat
      reads vol, vol.buf2
    {
      if vol.Valid() then |Spare(vol.M().dir, vol.chains, vol.files)| else 0
    }

    /** How many clusters there are for the bytes of files.  */
    ghost function Space(): int
      reads vol, vol.buf2
    {
      |Clusters()| - Wasted()
    }

    /** The first bytes of the directory slots.  */
    ghost function Heads(): seq<byte>
      reads vol, vol.buf2
    {
      if vol.Valid() then HeadsOf(vol.M().dir) else []
    }

    /** No more empty files own a cluster, and no slots are stale if none were.  */
    twostate predicate Tidy()
      reads vol, vol.buf2
    {
      Wasted() <= old(Wasted()) && (old(NoStale(Heads())) ==> NoStale(Heads()))
    }

    twostate lemma IsTidy()
      requires old(vol.Valid()) && vol.Valid()
      requires |Spare(vol.M().dir, vol.chains, vol.files)| <= old(|Spare(vol.M().dir, vol.chains, vol.files)|)
      requires old(NoStale(HeadsOf(vol.M().dir))) ==> NoStale(HeadsOf(vol.M().dir))
      ensures Tidy()
    {
      hide Volume.M, Volume.Valid, NoStale, HeadsOf, Spare;
    }

    /** The same for a step that leaves the first bytes of the slots alone.  */
    twostate lemma IsTidyHeads()
      requires old(vol.Valid()) && vol.Valid()
      requires |Spare(vol.M().dir, vol.chains, vol.files)| <= old(|Spare(vol.M().dir, vol.chains, vol.files)|)
      requires HeadsOf(vol.M().dir) == old(HeadsOf(vol.M().dir))
      ensures Wasted() <= old(Wasted()) && Heads() == old(Heads())
    {
      hide Volume.M, Volume.Valid, HeadsOf, Spare;
    }

    ghost predicate WriterOk()
      reads this, vol, vol.buf2
      requires vol.Valid()
    {
      && cur.Writing? && cur.slot in vol.chains
      && direntry == vol.geo.SlotAddr(cur.slot) && bufend == SECTORSIZE
      && WriterAt(vol.geo, vol.M().fat, Chain(), floc, frem, bufat, fclust, writelink)
    }

    /** The bytes of the file open for reading.  */
    ghost function Text(): seq<byte>
      reads this, vol, vol.buf2
    {
      if cur.Reading? && vol.Valid() then FileData(vol.geo, vol.L(), Chain(), filesize) else []
    }

    ghost predicate ReaderOk()
      requires vol.Valid()
      reads this, buf, vol, vol.buf2
    {
      && cur.Reading? && cur.slot in vol.chains && 0 <= cur.slot < |vol.M().dir|
      && filesize == Size(vol.M().dir[cur.slot])
      && (Chain() != [] ==> firstcluster == Chain()[0])
      && ReaderAt(vol.geo, Chain(), filesize, cur.k, floc, frem, bufat, bufend, fclust)
      && Buffered(Text(), buf[..], floc, bufend)
    }

    ghost predicate Inv()
      reads this, buf, vol, vol.buf2
    {
      && buf.Length == SECTORSIZE && buf != vol.buf2 && vol.Valid()
      && (cur.Reading? ==> ReaderOk())
      && (if cur.Writing? then WriterOk() else direntry == 0 && !vol.dirty)
      && Consistent(vol.geo, vol.M(), vol.chains, W())
      && Shows(vol.geo, vol.L(), vol.M(), vol.chains, W(), Pending(), vol.files)
      && Crash(vol.geo, vol.trail, vol.exposed)
    }


    // ------------------------------------------------- walking through the FAT

    method ReadFat(clust: int) returns (bp: int)
      requires vol.Valid() && 0 <= clust < vol.geo.totclusters
      modifies this`fatptr, vol`disk, vol`trail, vol`dirty, vol`lastread, vol.buf2
      ensures vol.Valid() && vol.L() == old(vol.L())
      ensures vol.lastread == vol.geo.FatBlk(clust) && bp == vol.geo.FatOff(clust)
      ensures fatptr == vol.geo.FatAddr(clust)
      ensures 0 <= bp && bp + vol.geo.EntrySize() <= SECTORSIZE
      ensures GetClust(vol.geo.filesystem, vol.buf2[..], bp) == vol.M().fat[clust]
      ensures Grown(vol.geo, old(vol.trail), vol.trail, vol.M())
      ensures old(!vol.dirty) ==> !vol.dirty && vol.disk == old(vol.disk) && vol.trail == old(vol.trail)
      ensures old(vol.lastread) != vol.lastread ==> !vol.dirty
    {
      FatPlace(vol.geo, clust);
      fatptr := vol.geo.fat1 * SECTORSIZE + vol.geo.Shifted(clust);
      bp := vol.ReadByteC(fatptr);
    }

    function BrClust(bp: int): int
      requires vol.buf2.Length == SECTORSIZE && 0 <= bp && bp + vol.geo.EntrySize() <= SECTORSIZE
      reads vol, vol.buf2
    {
      GetClust(vol.geo.filesystem, vol.buf2[..], bp)
    }

    method FollowChain() returns (r: int)
      requires vol.Valid() && 0 <= fclust < vol.geo.totclusters
      modifies this`fatptr, this`writelink, vol`disk, vol`trail, vol`dirty, vol`lastread, vol.buf2
      ensures vol.Valid() && vol.L() == old(vol.L())
      ensures r == vol.M().fat[fclust] && writelink == vol.geo.FatAddr(fclust)
      ensures Grown(vol.geo, old(vol.trail), vol.trail, vol.M())
      ensures old(!vol.dirty) ==> !vol.dirty && vol.disk == old(vol.disk) && vol.trail == old(vol.trail)
    {
      var bp := ReadFat(fclust);
      r := BrClust(bp);
      writelink := fatptr;
    }

    method NextCluster() returns (r: Result<int>)
      requires vol.Valid() && 0 <= fclust < vol.geo.totclusters
      modifies this`fatptr, this`writelink, vol`disk, vol`trail, vol`dirty, vol`lastread, vol.buf2
      ensures vol.Valid() && vol.L() == old(vol.L())
      ensures r == (var v := vol.M().fat[fclust];
                    if 2 <= v < vol.geo.totclusters then Ok(v) else Abort(-9))
      ensures Grown(vol.geo, old(vol.trail), vol.trail, vol.M())
      ensures old(!vol.dirty) ==> !vol.dirty && vol.disk == old(vol.disk) && vol.trail == old(vol.trail)
    {
      var v := FollowChain();
      if v < 2 || v >= vol.geo.totclusters {
        return Abort(-9);
      }
      return Ok(v);
    }

    /** One round of the loop below.  */
    method FreeOne(clust: int) returns (next: int)
      requires vol.Valid() && 2 <= clust < vol.geo.totclusters
      modifies this`fatptr, vol`disk, vol`trail, vol`dirty, vol`lastread, vol.buf2
      ensures vol.Valid() && SameData(vol.geo, old(vol.L()), vol.L())
      ensures next == old(vol.M()).fat[clust]
      ensures vol.M() == old(vol.M()).(fat := old(vol.M()).fat[clust := 0])
      ensures Grown(vol.geo, old(vol.trail), vol.trail, old(vol.M()))
    {
      var bp := ReadFat(clust);
      next := BrClust(bp);
      vol.StoreFat(bp, 0, clust);
    }

    /** Frees from `clust0` on: the FAT becomes what FreeChain says, on a volume
        in any state.  If nothing leads to `clust0` any more and the volume is
        sound, it is sound on the disk after every block write.  */
    method FreeClusters(clust0: int) returns (r: Result<()>)
      requires vol.Valid() && FreeChain(vol.geo, vol.M().fat, clust0).1 != OutOfRange
      modifies this`fatptr, vol`disk, vol`trail, vol`dirty, vol`lastread, vol.buf2
      ensures vol.Valid() && SameData(vol.geo, old(vol.L()), vol.L())
      ensures vol.M() == old(vol.M()).(fat := FreeChain(vol.geo, old(vol.M()).fat, clust0).0)
      ensures r == if FreeChain(vol.geo, old(vol.M()).fat, clust0).1 == Done then Ok(()) else Abort(-26)
      ensures r.Ok? ==> !vol.dirty && vol.disk == vol.L()
      ensures Prefix(old(vol.trail), vol.trail)
      ensures SafeToFree(vol.geo, old(vol.M()), clust0) ==> AllSound(vol.geo, vol.trail, |old(vol.trail)|)
    {
      ghost var g, m0, t0, d0 := vol.geo, vol.M(), vol.trail, vol.L();
      ghost var safe := SafeToFree(g, m0, clust0);
      var clust := clust0;
      while clust < vol.geo.EndOfChain()
        invariant vol.Valid() && SameData(g, d0, vol.L())
        invariant vol.M().dir == m0.dir
        invariant FreeChain(g, m0.fat, clust0) == FreeChain(g, vol.M().fat, clust)
        invariant Prefix(t0, vol.trail)
        invariant safe ==> SafeToFree(g, vol.M(), clust) && AllSound(g, vol.trail, |t0|)
        decreases NonZero(vol.M().fat), if clust >= 2 then 1 else 0
      {
        ghost var m, t, d := vol.M(), vol.trail, vol.L();
        if clust < 2 {
          assert FreeChain(g, m.fat, clust) == (m.fat, BadCluster);
          assert m == m0.(fat := m.fat);
          return Abort(-26);
        }
        assert clust < g.totclusters;
        var next := FreeOne(clust);
        SameDataTrans(g, d0, d, vol.L());
        FreeRound(g, m, clust);
        TrailOn(g, t0, t, vol.trail, m, safe);
        clust := next;
      }
      ghost var t := vol.trail;
      assert FreeChain(g, vol.M().fat, clust) == (vol.M().fat, Done);
      assert vol.M() == m0.(fat := vol.M().fat);
      vol.FlushIfDirty();
      TrailOn(g, t0, t, vol.trail, vol.M(), safe);
      return Ok(());
    }

    // ------------------------------------------------------------ allocation

    lemma ScanStart(cluststart: int)
      requires vol.Valid() && 0 <= cluststart < vol.geo.totclusters && vol.lastread == vol.geo.FatBlk(cluststart)
      ensures Holds(vol.geo, vol.L()) && 0 <= vol.lastread < |vol.L()| && vol.buf2.Length == SECTORSIZE
      ensures vol.buf2[..] == vol.L()[vol.geo.FatBlk(cluststart)] && PageClean(vol.geo, vol.M().fat, cluststart, cluststart)
    {
      hide MetaOf, Volume.L, Geometry.FatOff;
      FatPlace(vol.geo, cluststart);
      assert vol.lastread != -1;
    }

    /** Looks through the FAT sector in `buf2` for a free entry; the result is
        its cluster number and its place, or a number below 2.  */
    method ScanPage(cluststart: int, newcluster0: int) returns (newcluster: int, i: int)
      requires vol.Valid() && 0 <= cluststart < vol.geo.totclusters && vol.geo.IsPage(cluststart)
      requires vol.lastread == vol.geo.FatBlk(cluststart)
      requires vol.M().fat[0] != 0 && vol.M().fat[1] != 0 && newcluster0 == -1
      ensures newcluster > 1 ==> FirstFree(vol.geo, vol.M().fat, cluststart, newcluster) && i == vol.geo.FatOff(newcluster)
      ensures newcluster <= 1 ==>
                newcluster == -1 && PageClean(vol.geo, vol.M().fat, cluststart, cluststart + vol.geo.PerSector())
    {
      hide MetaOf, Volume.L, Volume.Valid, PageClean, FirstFree, GetClust, Geometry.Wf, Geometry.FatBlk, Geometry.FatOff, Geometry.IsPage;
      ScanStart(cluststart);
      newcluster := newcluster0;
      i := 0;
      ghost var k, g, d, fat := 0, vol.geo, vol.L(), vol.M().fat;
      while i <= SECTORSIZE - vol.geo.EntrySize()
        invariant 0 <= k <= g.PerSector() && i == g.Shifted(k)
        invariant newcluster == -1 && PageClean(g, fat, cluststart, cluststart + k)
      {
        PageEntry(g, d, cluststart, k);
        ScanEntry(g, d, cluststart, k);
        if vol.buf2[i] == 0 {
          if BrClust(i) == 0 {
            newcluster := cluststart + i / vol.geo.EntrySize();
            if newcluster >= vol.geo.totclusters {
              newcluster := -1;
            }
            return;
          }
        }
        i := i + vol.geo.EntrySize();
        k := k + 1;
      }
    }

    /** One round of the search: the FAT sector that starts with `cluststart`.  */
    method SearchPage(cluststart: int) returns (newcluster: int, i: int)
      requires vol.Valid() && 0 <= cluststart < vol.geo.totclusters && vol.geo.IsPage(cluststart)
      requires vol.M().fat[0] != 0 && vol.M().fat[1] != 0
      modifies this`fatptr, vol`disk, vol`trail, vol`dirty, vol`lastread, vol.buf2
      ensures vol.Valid() && vol.L() == old(vol.L())
      ensures newcluster > 1 ==>
                && FirstFree(vol.geo, vol.M().fat, cluststart, newcluster)
                && vol.lastread == vol.geo.FatBlk(newcluster) && i == vol.geo.FatOff(newcluster)
                && fatptr + i == vol.geo.FatAddr(newcluster)
      ensures newcluster <= 1 ==> PageClean(vol.geo, vol.M().fat, cluststart, cluststart + vol.geo.PerSector())
      ensures Grown(vol.geo, old(vol.trail), vol.trail, vol.M())
      ensures old(!vol.dirty) ==> !vol.dirty && vol.disk == old(vol.disk) && vol.trail == old(vol.trail)
    {
      i := ReadFat(cluststart);
      newcluster, i := ScanPage(cluststart, -1);
      if newcluster > 1 {
        PagePlace(vol.geo, cluststart, newcluster);
      }
    }

    /** The search of pflushbuf: from the sector of the current cluster on, around
        the FAT, the lowest free cluster of the first sector that has one.
        `i` is its place in `buf2` and fatptr the address of that sector.  */
    method FindCluster(rcnt: int) returns (newcluster: int, i: int, ghost rounds: nat)
      requires vol.Valid() && 0 <= fclust < vol.geo.totclusters && rcnt > 0
      requires vol.M().fat[0] != 0 && vol.M().fat[1] != 0 && FreeSet(vol.geo, vol.M().fat) != {}
      modifies this`fatptr, vol`disk, vol`trail, vol`dirty, vol`lastread, vol.buf2
      ensures vol.Valid() && vol.L() == old(vol.L())
      ensures 2 <= newcluster < vol.geo.totclusters && vol.M().fat[newcluster] == 0
      ensures FirstFree(vol.geo, vol.M().fat, PageOf(vol.geo, vol.geo.PageStart(fclust), rounds), newcluster)
      ensures NoHitBefore(vol.geo, vol.M().fat, vol.geo.PageStart(fclust), rounds)
      ensures vol.lastread == vol.geo.FatBlk(newcluster) && i == vol.geo.FatOff(newcluster)
      ensures fatptr + i == vol.geo.FatAddr(newcluster)
      ensures Grown(vol.geo, old(vol.trail), vol.trail, vol.M())
      ensures old(!vol.dirty) ==> !vol.dirty && vol.disk == old(vol.disk) && vol.trail == old(vol.trail)
    {
      hide MetaOf, Volume.L;
      var cluststart := vol.geo.PageStart(fclust);
      var count := 2;
      ghost var g, m, start, t0 := vol.geo, vol.M(), cluststart, vol.trail;
      SearchEnds(g, m.fat, start);
      ghost var last: nat :| PageHit(g, m.fat, start, last);
      rounds := 0;
      while true
        invariant vol.Valid() && vol.L() == old(vol.L()) && vol.M() == m
        invariant cluststart == PageOf(g, start, rounds)
        invariant NoHitBefore(g, m.fat, start, rounds) && rounds <= last
        invariant Grown(g, t0, vol.trail, m)
        invariant old(!vol.dirty) ==> !vol.dirty && vol.disk == old(vol.disk) && vol.trail == t0
        decreases last - rounds
      {
        ghost var t := vol.trail;
        newcluster, i := SearchPage(cluststart);
        GrownTwice(g, t0, t, vol.trail, m);
        if newcluster > 1 {
          return;
        }
        NoHitNext(g, m.fat, start, rounds, last);
        cluststart := cluststart + vol.geo.PerSector();
        if cluststart >= vol.geo.totclusters {
          cluststart := 0;
          count := count - 1;
          assert !(rcnt < 0); // so the "no space" exit is not taken
        }
        rounds := rounds + 1;
      }
    }

    /** `direntry & (SECTORSIZE - filesystem)`: the low nine bits, on FAT32
        without the lowest.  */
    function SlotOffset(): int
      reads this, vol
    {
      if vol.geo.filesystem == 2 then direntry % SECTORSIZE - direntry % 2 else direntry % SECTORSIZE
    }

    /** Linking the first cluster of a file from its directory slot; the size is
        stored as well.  */
    method LinkFirst(newcluster: int, ghost slot: int)
      requires vol.Valid() && 0 <= slot < vol.geo.Slots() && direntry == vol.geo.SlotAddr(slot)
      modifies this`writelink, vol`disk, vol`trail, vol`dirty, vol`lastread, vol.buf2
      ensures vol.Valid() && SameData(vol.geo, old(vol.L()), vol.L())
      ensures vol.M() == old(vol.M()).(dir := old(vol.M()).dir[slot :=
                FirstStored(vol.geo, old(vol.M()).dir[slot], newcluster, floc + bufat)])
      ensures Grown(vol.geo, old(vol.trail), vol.trail, old(vol.M()))
    {
      hide MetaOf, Volume.L, Volume.Valid;
      ghost var g, d, m := vol.geo, vol.L(), vol.M();
      SlotPlace(g, slot);
      SlotOffsetIs(g, slot);
      var s := vol.ReadByteC(direntry);
      vol.StoreSlotWord(s + 0x1a, newcluster, slot, 0x1a);
      ghost var d1 := vol.L();
      writelink := SlotOffset();
      vol.StoreSlotLong(writelink + 0x1c, floc + bufat, slot, 0x1c);
      SameDataTrans(g, d, d1, vol.L());
      if vol.geo.filesystem == 2 {
        ghost var d2 := vol.L();
        vol.StoreSlotWord(writelink + 0x14, newcluster / 0x1_0000, slot, 0x14);
        SameDataTrans(g, d, d2, vol.L());
      }
      assert vol.M().dir == m.dir[slot := FirstStored(g, m.dir[slot], newcluster, floc + bufat)];
    }

    /** Linking a further cluster behind cluster `last`.  */
    method LinkNext(newcluster: int, ghost last: int)
      requires vol.Valid() && 0 <= last < vol.geo.totclusters && writelink == vol.geo.FatAddr(last)
      requires 2 <= newcluster < vol.geo.totclusters
      modifies vol`disk, vol`trail, vol`dirty, vol`lastread, vol.buf2
      ensures vol.Valid() && SameData(vol.geo, old(vol.L()), vol.L())
      ensures vol.M() == old(vol.M()).(fat := old(vol.M()).fat[last := newcluster])
      ensures Grown(vol.geo, old(vol.trail), vol.trail, old(vol.M()))
    {
      FatPlace(vol.geo, last);
      var s := vol.ReadByteC(writelink);
      vol.StoreFat(s, newcluster, last);
    }

    /** The allocation part of pflushbuf: marks the cluster found as an end of
        chain, then links it, from the directory slot if the file has no cluster
        yet and else from its last one.  */
    method Allocate(rcnt: int, ghost slot: int, ghost cl: seq<int>) returns (ghost mid: seq<Disk>)
      requires vol.Valid() && 0 <= fclust < vol.geo.totclusters && rcnt > 0
      requires vol.M().fat[0] != 0 && vol.M().fat[1] != 0 && FreeSet(vol.geo, vol.M().fat) != {}
      requires 0 <= slot < vol.geo.Slots() && direntry == vol.geo.SlotAddr(slot)
      requires if cl == [] then writelink == 0
               else 0 <= cl[|cl| - 1] < vol.geo.totclusters && writelink == vol.geo.FatAddr(cl[|cl| - 1])
      modifies this`fatptr, this`writelink, this`fclust, this`frem
      modifies vol`disk, vol`trail, vol`dirty, vol`lastread, vol.buf2
      ensures vol.Valid() && SameData(vol.geo, old(vol.L()), vol.L())
      ensures 2 <= fclust < vol.geo.totclusters && old(vol.M()).fat[fclust] == 0
      ensures vol.M() == Allocated(vol.geo, old(vol.M()), slot, cl, fclust, floc + bufat)
      ensures frem == vol.geo.ClusterSize() && writelink == vol.geo.FatAddr(fclust)
      ensures Grown(vol.geo, old(vol.trail), mid, old(vol.M()))
      ensures Grown(vol.geo, mid, vol.trail, Marked(vol.geo, old(vol.M()), fclust))
    {
      hide MetaOf, Volume.L, Volume.Valid, FirstFree, NoHitBefore, FirstStored, SameData, Grown, FreeSet;
      ghost var g, d, m := vol.geo, vol.L(), vol.M();
      var newcluster, i, rounds := FindCluster(rcnt);
      mid := vol.trail;
      vol.StoreFat(i, vol.geo.EndOfChain() + 0xf, newcluster);
      ghost var d1 := vol.L();
      assert vol.M() == Marked(g, m, newcluster);
      if writelink == 0 {
        LinkFirst(newcluster, slot);
      } else {
        LinkNext(newcluster, cl[|cl| - 1]);
      }
      SameDataTrans(g, d, d1, vol.L());
      writelink := fatptr + i;
      fclust := newcluster;
      frem := vol.geo.ClusterSize();
    }

    // ------------------------------------------------------------ the writer

    /** Everything a step of the writer leaves as it was: the files, the room, the
        clusters in play, the slots of other files.  */
    twostate predicate WriterStep()
      reads this, buf, vol, vol.buf2
    {
      && old(Inv()) && Inv() && cur == old(cur) && cur.Writing?
      && vol.files == old(vol.files) && vol.exposed == old(vol.exposed)
      && floc + bufat == old(floc + bufat) && Pending() == old(Pending())
      && Key() == old(Key())
      && |Chain()| + |FreeSet(vol.geo, vol.M().fat)| == old(|Chain()| + |FreeSet(vol.geo, vol.M().fat)|)
      && Capacity() == old(Capacity()) && Clusters() == old(Clusters())
      && Wasted() <= old(Wasted()) && Heads() == old(Heads())
    }

    lemma WriterSlot()
      requires Inv()
      ensures direntry == 0 <==> !cur.Writing?
      ensures cur.Writing? ==> 0 <= bufat <= SECTORSIZE == bufend
      ensures vol.geo.ClusterSize() >= SECTORSIZE
    {
      hide MetaOf, Volume.L, Shows, Crash, FreeSet, FileData, Room, Pool, Size, Fits, Sound;
      if cur.Writing? {
        assert IsFile(vol.M().dir, cur.slot);
        SlotOffsetIs(vol.geo, cur.slot);
      }
    }

    lemma KeyKnown()
      requires Inv()
      ensures cur.Writing? ==> Key() in vol.files && vol.files[Key()].data == Pending()
      ensures cur.Writing? ==> vol.files[Key() := File(vol.files[Key()].locked, Pending())] == vol.files
    {
      hide MetaOf, Volume.L, Volume.Valid, Consistent, Shows, Crash, FreeSet, FileData, Room, WriterAt, Pool, Size, Fits, Name;
      if cur.Writing? {
        PendShows(vol.geo, vol.L(), vol.M(), vol.chains, cur.slot, Pending(), Pending(), vol.files);
      }
    }

    lemma PendingLength()
      requires Inv() && cur.Writing?
      ensures |Pending()| == floc + bufat
    {
      hide MetaOf, Volume.L, Shows, Crash, FreeSet, Room, Pool, Size, Sound, FileBytes, Fits;
      ChainOf(vol.geo, vol.M(), vol.chains, cur.slot, cur.slot);
    }

    /** The fill of the buffer follows from the length of the file.  */
    lemma BufferFill()
      requires Inv()
      ensures cur.Writing? ==> 0 <= bufat <= SECTORSIZE && bufat % SECTORSIZE == |Pending()| % SECTORSIZE
    {
      hide MetaOf, Volume.L, Volume.Valid, Consistent, Shows, Crash, FreeSet, Room, Pending;
      if cur.Writing? {
        assert WriterAt(vol.geo, vol.M().fat, Chain(), floc, frem, bufat, fclust, writelink);
        assert floc % SECTORSIZE == 0 && 0 <= bufat <= SECTORSIZE;
        PendingLength();
        hide WriterAt, Inv;
        SectorRest(floc, bufat);
      }
    }

    lemma StoredEmpty()
      requires Inv() && cur.Writing? && bufat == 0
      ensures Stored()
    {
      hide MetaOf, Volume.L, Consistent, Shows, Crash, FreeSet, FileData, Room, Pool, Size;
      WriterFits(vol.geo, vol.M().fat, Chain(), floc, frem, bufat, fclust, writelink);
      assert FileData(vol.geo, vol.L(), Chain(), floc) + buf[..0] == FileData(vol.geo, vol.L(), Chain(), floc);
    }

    /** The parts of the invariant of a file open for writing.  */
    lemma WriterParts()
      requires cur.Writing?
      ensures Inv() <==>
                && buf.Length == SECTORSIZE && buf != vol.buf2 && vol.Valid() && WriterOk()
                && Consistent(vol.geo, vol.M(), vol.chains, cur.slot) && Crash(vol.geo, vol.trail, vol.exposed)
                && Shows(vol.geo, vol.L(), vol.M(), vol.chains, cur.slot, Pending(), vol.files)
    {
      hide MetaOf, Volume.L, Volume.Valid, Consistent, Shows, Crash, WriterAt, Pending;
    }

    method Grow(rcnt: int)
      requires Inv() && cur.Writing? && 0 < rcnt == bufat && frem < SECTORSIZE
      modifies this`fatptr, this`writelink, this`fclust, this`frem
      modifies vol`disk, vol`trail, vol`dirty, vol`lastread, vol`chains, vol.buf2
      ensures WriterStep() && frem == vol.geo.ClusterSize()
    {
      hide MetaOf, Volume.L, Volume.Valid, Consistent, Shows, Crash, Sound, Pool, FreeSet, AllData;
      hide SameData, Allocated, Marked, Grown, FileData, Room, WriterAt, Name, Spare, HeadsOf, Wasted, Heads, Inv;
      WriterParts();
      ghost var g, d, m, ch, t, slot, cl := vol.geo, vol.L(), vol.M(), vol.chains, vol.trail, cur.slot, Chain();
      WriterFull(g, m.fat, cl, floc, frem, bufat, fclust, writelink);
      WriterLinks(g, m, ch, slot, floc, frem, bufat, fclust, writelink);
      KeyKnown();
      PendingLength();
      ghost var mid := Allocate(rcnt, slot, cl);
      ghost var c := fclust;
      vol.chains := ch[slot := cl + [c]];
      AllocKeeps(g, m, ch, slot, c, floc + bufat);
      CrashOn(g, t, mid, m, vol.exposed);
      CrashOn(g, mid, vol.trail, Marked(g, m, c), vol.exposed);
      GrowShows(g, d, m, ch, vol.L(), vol.M(), slot, c, floc, buf[..bufat], vol.files);
      WriterGrown(g, m.fat, vol.M().fat, cl, c, floc, old(frem), bufat, old(fclust), old(writelink));
      SpareSame(m.dir, vol.M().dir, ch, slot, cl + [c], vol.files);
      HeadsKept(m.dir, vol.M().dir, slot);
      IsTidyHeads();
      assert Chain() == cl + [c] && Key() == old(Key()) && Pending() == old(Pending()) && Capacity() == old(Capacity());
      assert Clusters() == old(Clusters()) && WriterOk();
      hide Key, Capacity, Clusters, WriterOk, Pending;
      WriterParts();
    }

    /** The block that the current position of the file lies in.  */
    function DataBlock(): int
      reads this, vol
    {
      fclust * vol.geo.Spc() + vol.geo.dataregion + floc / SECTORSIZE % vol.geo.Spc()
    }

    /** The bytes accepted so far are all on the disk.  */
    ghost predicate Stored()
      requires vol.Valid()
      reads this, buf, vol, vol.buf2
    {
      FileData(vol.geo, vol.L(), Chain(), floc + bufat) == Pending() && Fits(vol.geo, |Chain()|, floc + bufat)
    }

    method StoreBuffer()
      requires Inv() && cur.Writing? && 0 < bufat && frem >= SECTORSIZE
      modifies vol`disk, vol`trail
      ensures WriterStep() && Stored()
    {
      hide MetaOf, Volume.L, Volume.Valid, Consistent, Shows, Crash, Sound, Pool, FreeSet, AllData;
      hide Grown, FileData, Room, WriterAt, Name, Fits, Geometry.Spc, Pow2, Geometry.Wf;
      ghost var g, d, m, ch, t, slot, cl := vol.geo, vol.L(), vol.M(), vol.chains, vol.trail, cur.slot, Chain();
      ghost var sec, pend, card := floc / SECTORSIZE, Pending(), vol.disk;
      WriterLinks(g, m, ch, slot, floc, frem, bufat, fclust, writelink);
      WriterSector(g, m.fat, cl, floc, frem, bufat, fclust, writelink);
      assert g.DataBlk(fclust, sec % g.Spc()) == DataBlock();
      vol.StoreData(DataBlock(), buf, fclust, sec % g.Spc());
      CrashSame(g, t, vol.trail, card, vol.exposed);
      assert buf[..][..bufat] == buf[..bufat];
      StoreShows(g, d, vol.L(), m, ch, slot, sec, buf[..], bufat, vol.files);
      assert Pending() == pend;
      WriterFits(g, m.fat, cl, floc, frem, bufat, fclust, writelink);
    }

    method Store(rcnt: int)
      requires Inv() && cur.Writing? && 0 < rcnt == bufat && frem >= SECTORSIZE
      modifies this`floc, this`frem, this`bufat, this`bufend, vol`disk, vol`trail
      ensures WriterStep() && Stored()
      ensures bufat == if rcnt == SECTORSIZE then 0 else rcnt
    {
      hide MetaOf, Volume.L, Volume.Valid, Consistent, Shows, Crash, Sound, Pool, FreeSet, AllData;
      hide Grown, FileData, Room, WriterAt, Name, Fits, Geometry.Spc, Pow2, Geometry.Wf;
      StoreBuffer();
      if rcnt == SECTORSIZE {
        ghost var pend := Pending();
        WriterAdvance(vol.geo, vol.M().fat, Chain(), floc, frem, bufat, fclust, writelink);
        floc := floc + rcnt;
        frem := frem - rcnt;
        bufat := 0;
        bufend := rcnt;
        assert Pending() == pend;
      }
    }

    /** The block reads and writes of the metadata part of pflushbuf.  */
    method StoreSize(ghost slot: int)
      requires vol.Valid() && 0 <= slot < vol.geo.Slots() && direntry == vol.geo.SlotAddr(slot) && 0 <= floc + bufat < 0x8000_0000
      requires Crash(vol.geo, vol.trail, vol.exposed) && Sound(vol.geo, vol.M())
      requires Sound(vol.geo, vol.M().(dir := vol.M().dir[slot := Put32(vol.M().dir[slot], 0x1c, floc + bufat)]))
      modifies vol`disk, vol`trail, vol`dirty, vol`lastread, vol.buf2
      ensures vol.Valid() && !vol.dirty && SameData(vol.geo, old(vol.L()), vol.L()) && Crash(vol.geo, vol.trail, vol.exposed)
      ensures vol.M() == old(vol.M()).(dir := old(vol.M()).dir[slot := Put32(old(vol.M()).dir[slot], 0x1c, floc + bufat)])
    {
      hide MetaOf, Volume.L, Volume.Valid, Crash, Sound, Grown, SameData, Put32, Geometry.Wf;
      ghost var g, m := vol.geo, vol.M();
      ghost var t := vol.trail;
      SlotPlace(g, slot);
      SlotOffsetIs(g, slot);
      vol.ReadBlockC(direntry / SECTORSIZE);
      ghost var t1 := vol.trail;
      CrashOn(g, t, t1, m, vol.exposed);
      vol.StoreSlotLong(SlotOffset() + 0x1c, floc + bufat, slot, 0x1c);
      vol.FlushIfDirty();
      CrashOn(g, t1, vol.trail, vol.M(), vol.exposed);
    }

    /** The metadata part of pflushbuf: the size goes into the directory slot, and
        everything pending in `buf2` to the disk.  */
    method FlushSize()
      requires Inv() && cur.Writing? && Stored()
      modifies vol`disk, vol`trail, vol`dirty, vol`lastread, vol.buf2
      ensures WriterStep() && Stored() && Recorded()
    {
      hide MetaOf, Volume.L, Volume.Valid, Consistent, Shows, Crash, Sound, FreeSet, AllData;
      hide Grown, FileData, Room, WriterAt, Name, Size, First, Fits, Geometry.Wf, SameData, Put32, Spare, HeadsOf, Wasted, Heads;
      ghost var g, d, m, ch, slot, cl := vol.geo, vol.L(), vol.M(), vol.chains, cur.slot, Chain();
      WriterLinks(g, m, ch, slot, floc, frem, bufat, fclust, writelink);
      ghost var size, e := floc + bufat, m.dir[slot];
      ghost var e' := Put32(e, 0x1c, size);
      SizeStoredFields(g, e, size);
      SizeKeeps(g, m, ch, slot, slot, e', slot);
      SizeKeeps(g, m, ch, slot, slot, e', -1);
      ConsistentSound(g, m.(dir := m.dir[slot := e']), ch, slot);
      StoreSize(slot);
      SizeShows(g, d, m, ch, vol.L(), vol.M(), slot, floc, size, buf[..bufat], vol.files);
      SpareSame(m.dir, vol.M().dir, ch, slot, cl, vol.files);
      assert ch[slot := cl] == ch;
      HeadsKept(m.dir, vol.M().dir, slot);
      IsTidyHeads();
    }

    /** The directory slot on the disk records the bytes accepted so far.  */
    ghost predicate Recorded()
      requires vol.Valid()
      reads this, vol, vol.buf2
    {
      && !vol.dirty && cur.Writing? && 0 <= cur.slot < |vol.M().dir|
      && Size(vol.M().dir[cur.slot]) == floc + bufat
      && Consistent(vol.geo, vol.M(), vol.chains, -1)
    }

    /** Writes out the buffer, allocating a cluster if the last one is full, and
        with `metadata` the FAT and the size as well.  Its callers pass the fill
        of the buffer.  */
    method PFlushBuf(rcnt: int, metadata: bool) returns (r: Result<int>)
      requires if cur.Writing? then Inv() && rcnt == bufat else direntry == 0
      modifies this`fatptr, this`writelink, this`fclust, this`frem, this`floc, this`bufat, this`bufend
      modifies vol`disk, vol`trail, vol`dirty, vol`lastread, vol`chains, vol.buf2
      ensures cur == old(cur) && (old(Inv()) ==> Inv())
      ensures if old(cur.Writing?) then
                && Inv() && r == Ok(rcnt) && WriterStep() && Stored()
                && bufat == (if rcnt == SECTORSIZE then 0 else rcnt)
                && (metadata ==> Recorded())
              else
                && r == Abort(-27)
                && unchanged(this) && unchanged(vol) && unchanged(vol.buf2)
    {
      hide MetaOf, Volume.L, Volume.Valid, Consistent, Shows, Crash, FreeSet, FileData, Room, WriterAt, Pool, Size, Fits;
      if cur.Writing? {
        WriterSlot();
      }
      if direntry == 0 {
        return Abort(-27);
      }
      if rcnt > 0 {
        if frem < SECTORSIZE {
          Grow(rcnt);
        }
        WriterSlot();
        if frem >= SECTORSIZE {
          Store(rcnt);
        }
      } else {
        StoredEmpty();
      }
      if metadata {
        FlushSize();
      }
      return Ok(rcnt);
    }

    /** The file open for writing has grown by `more`, and nothing else changed.  */
    twostate predicate Grew(new more: seq<byte>)
      reads this, buf, vol, vol.buf2
    {
      && cur == old(cur) && cur.Writing? && vol.exposed == old(vol.exposed)
      && Key() == old(Key()) && Key() in old(vol.files)
      && old(vol.files)[Key()].data == old(Pending())
      && Pending() == old(Pending()) + more
      && vol.files == old(vol.files)[Key() := File(old(vol.files)[Key()].locked, Pending())]
      && floc + bufat == old(floc + bufat) + |more| && Capacity() == old(Capacity())
      && Clusters() == old(Clusters()) && Wasted() <= old(Wasted()) && Heads() == old(Heads())
    }

    /** No file is open for writing; the buffer may be that of a reader.  */
    ghost predicate NotOpen()
      reads this
    {
      !cur.Writing? && direntry == 0 && buf.Length == SECTORSIZE && buf != vol.buf2 && 0 <= bufat && bufend <= SECTORSIZE
    }

    /** `bytes` have gone into the buffer, which no file is waiting for, and nothing
        else changed.  */
    twostate predicate Overwrote(new bytes: seq<byte>)
      reads this, buf, vol, vol.buf2
    {
      && unchanged(vol) && unchanged(vol.buf2) && cur == old(cur) && direntry == old(direntry)
      && floc == old(floc) && frem == old(frem) && bufend == old(bufend) && fclust == old(fclust)
      && writelink == old(writelink) && fatptr == old(fatptr)
      && 0 <= old(bufat) && bufat == old(bufat) + |bytes| && (bytes != [] ==> bufat <= buf.Length)
      && if bytes == [] then buf[..] == old(buf[..])
         else buf[..] == old(buf[..bufat]) + bytes + old(buf[bufat + |bytes|..])
    }

    /** bytemove into the buffer: the open file grows by `chunk`.  Without one the
        buffer is overwritten all the same.  */
    method CopyIn(chunk: seq<byte>)
      requires 0 <= bufat && bufat + |chunk| <= SECTORSIZE
      requires if cur.Writing? then Inv() && floc + bufat + |chunk| <= Capacity() && floc + bufat + |chunk| < 0x8000_0000 else NotOpen()
      modifies this`bufat, buf, vol`files
      ensures bufat == old(bufat) + |chunk|
      ensures if old(cur.Writing?) then Inv() && Grew(chunk) else NotOpen() && Overwrote(chunk)
    {
      hide MetaOf, Volume.L, Volume.Valid, Consistent, Shows, Crash, FreeSet, FileData, Room, WriterAt, Pool, Size, Fits, Name, Spare, HeadsOf;
      hide Wasted, Heads;
      ghost var was, pend := buf[..], Pending();
      if cur.Writing? {
        WriterSlot();
        WriterAccept(vol.geo, vol.M().fat, Chain(), floc, frem, bufat, fclust, writelink, |chunk|);
        PendShows(vol.geo, vol.L(), vol.M(), vol.chains, cur.slot, pend, pend + chunk, vol.files);
        SpareLonger(vol.M().dir, vol.chains, vol.files, Key(), File(vol.files[Key()].locked, pend + chunk));
      }
      ByteMove(buf, bufat, chunk);
      assert buf[..bufat + |chunk|] == was[..bufat] + chunk;
      bufat := bufat + |chunk|;
      if cur.Writing? {
        vol.files := vol.files[Key() := File(vol.files[Key()].locked, pend + chunk)];
        assert Pending() == pend + chunk;
        IsTidyHeads();
      }
    }

    /** One round of the loop below: flushes a full buffer and fills it again.  */
    method WriteRound(ubuf: seq<byte>, count: int) returns (r: Result<int>)
      requires 0 < count <= |ubuf|
      requires if cur.Writing? then Inv() && floc + bufat + count <= Capacity() && floc + bufat + count < 0x8000_0000 else NotOpen()
      modifies this`fatptr, this`writelink, this`fclust, this`frem, this`floc, this`bufat, this`bufend
      modifies vol`disk, vol`trail, vol`dirty, vol`lastread, vol`chains, vol`files, vol.buf2, buf
      ensures old(cur.Writing?) ==> Inv() && r.Ok? && 0 < r.value <= count && Grew(ubuf[..r.value])
      ensures !old(cur.Writing?) ==>
                && NotOpen() && bufend == old(bufend)
                && r == (if old(bufat >= bufend) then Abort(-27) else Ok(Min(old(bufend - bufat), count)))
                && Overwrote(if r.Ok? then ubuf[..r.value] else []) && (r.Abort? && old(Inv()) ==> Inv())
    {
      hide MetaOf, Volume.L, Volume.Valid, Consistent, Shows, Crash, FreeSet, FileData, Room, WriterAt, Pool, Size, Fits, Name;
      hide Stored, Recorded, Inv, Wasted, Heads;
      if cur.Writing? {
        WriterSlot();
      }
      if bufat >= bufend {
        var f :- PFlushBuf(bufat, false);
      }
      if cur.Writing? {
        WriterSlot();
      }
      var t := Min(bufend - bufat, count);
      CopyIn(ubuf[..t]);
      return Ok(t);
    }

    /** Appends the first `count0` bytes of `ubuf0` to the file open for writing,
        for which there must be room.  Without such a file it aborts, but not before
        what is left of the buffer has been overwritten.  */
    method PWrite(ubuf0: seq<byte>, count0: int) returns (r: Result<int>)
      requires Inv() && count0 <= |ubuf0|
      requires cur.Writing? && count0 > 0 ==> floc + bufat + count0 <= Capacity() && floc + bufat + count0 < 0x8000_0000
      requires !cur.Writing? ==> 0 <= bufat && bufend <= SECTORSIZE
      modifies this`fatptr, this`writelink, this`fclust, this`frem, this`floc, this`bufat, this`bufend
      modifies vol`disk, vol`trail, vol`dirty, vol`lastread, vol`chains, vol`files, vol.buf2, buf
      ensures old(cur.Writing?) ==>
                var n := if count0 > 0 then count0 else 0;
                Inv() && r == Ok(n) && Grew(ubuf0[..n])
      ensures !old(cur.Writing?) ==>
                var left := if old(bufat < bufend) && count0 > 0 then Min(old(bufend - bufat), count0) else 0;
                && r == (if count0 <= 0 then Ok(0) else if count0 == left then Ok(count0) else Abort(-27))
                && Overwrote(ubuf0[..left]) && (left == 0 ==> Inv())
    {
      hide MetaOf, Volume.L, Volume.Valid, Consistent, Shows, Crash, FreeSet, FileData, Room, WriterAt, Pool, Size, Fits, Name;
      hide Stored, Recorded, Inv, Key, Pending, Capacity, Volume.M, Wasted, Heads;
      var ubuf, count, done := ubuf0, count0, 0;
      ghost var sent: seq<byte> := [];
      KeyKnown();
      InvShape();
      WriterSlot();
      assert !cur.Writing? ==> NotOpen();
      hide NotOpen;
      while count > 0
        invariant 0 <= done <= |ubuf0| && ubuf == ubuf0[done..] && sent == ubuf0[..done]
        invariant count == count0 - done && (count0 > 0 ==> count >= 0) && (count0 <= 0 ==> done == 0)
        invariant cur == old(cur) && if cur.Writing? then Inv() && Grew(sent) else NotOpen() && Overwrote(sent)
        invariant !cur.Writing? ==> if done == 0 then Inv() else done == Min(old(bufend - bufat), count0)
        decreases count
      {
        ghost var files1 := vol.files;
        var t :- WriteRound(ubuf, count);
        PrefixGrows(ubuf0, done, t);
        sent := sent + ubuf[..t];
        if cur.Writing? {
          FilesTwice(old(vol.files), files1, vol.files, Key());
        }
        done := done + t;
        ubuf := ubuf[t..];
        count := count - t;
      }
      return Ok(done);
    }

    /** The file open for writing grows by one byte.  Without such a file nothing is
        checked: the byte goes into the buffer, if that is not full.  */
    method PPutc(c: byte) returns (r: Result<int>)
      requires if cur.Writing? then Inv() && floc + bufat < Capacity() && floc + bufat + 1 < 0x8000_0000
               else NotOpen() && bufat <= SECTORSIZE
      modifies this`fatptr, this`writelink, this`fclust, this`frem, this`floc, this`bufat, this`bufend
      modifies vol`disk, vol`trail, vol`dirty, vol`lastread, vol`chains, vol`files, vol.buf2, buf
      ensures old(cur.Writing?) ==> Inv() && r == Ok(0) && Grew([c])
      ensures !old(cur.Writing?) ==>
                if old(bufat) == SECTORSIZE then r == Abort(-27) && Overwrote([]) else r == Ok(0) && Overwrote([c])
    {
      hide MetaOf, Volume.L, Volume.Valid, Consistent, Shows, Crash, FreeSet, FileData, Room, WriterAt, Pool, Size, Fits, Name;
      hide Stored, Recorded, Inv, Wasted, Heads;
      if cur.Writing? {
        WriterSlot();
      }
      if bufat == SECTORSIZE {
        var f :- PFlushBuf(SECTORSIZE, false);
      }
      if cur.Writing? {
        WriterSlot();
      }
      CopyIn([c]);
      return Ok(0);
    }

    method PFlush() returns (r: Result<int>)
      requires Inv()
      modifies this`fatptr, this`writelink, this`fclust, this`frem, this`floc, this`bufat, this`bufend
      modifies vol`disk, vol`trail, vol`dirty, vol`lastread, vol`chains, vol.buf2
      ensures Inv()
      ensures if old(cur.Writing?) then
                r == Ok(old(bufat)) && WriterStep() && Stored() && Recorded()
              else r == Abort(-27) && unchanged(this) && unchanged(vol) && unchanged(vol.buf2)
    {
      WriterSlot();
      r := PFlushBuf(bufat, true);
    }

    /** Closes the file; the result is what the flush returned, the number of
        bytes that were in the buffer, not always 0.  */
    method PClose() returns (r: Result<int>)
      requires Inv()
      modifies this, vol`disk, vol`trail, vol`dirty, vol`lastread, vol`chains, vol.buf2
      ensures Inv() && cur == Closed && vol.exposed == old(vol.exposed) && vol.files == old(vol.files)
      ensures Clusters() == old(Clusters())
      ensures r == Ok(if old(cur.Writing?) then old(bufat) else 0)
      ensures bufat == bufend == filesize == floc == frem == writelink == direntry == fclust == firstcluster == 0 && Rested()
      ensures !old(cur.Writing?) ==> unchanged(vol) && unchanged(vol.buf2)
      ensures Space() >= old(Space()) && Heads() == old(Heads())
    {
      hide MetaOf, Volume.L, Volume.Valid, Consistent, Shows, Crash, FreeSet, FileData, Room, WriterAt, Pool, Size, Fits, Name;
      hide Inv, Closable;
      r := Ok(0);
      WriterSlot();
      if direntry != 0 {
        r := PFlush();
      }
      ToClose();
      Reset();
    }

    /** What has to hold for the variables to be cleared.  */
    ghost predicate Closable()
      reads vol, vol.buf2
    {
      && buf.Length == SECTORSIZE && buf != vol.buf2 && vol.Valid() && !vol.dirty
      && Consistent(vol.geo, vol.M(), vol.chains, -1)
      && Shows(vol.geo, vol.L(), vol.M(), vol.chains, -1, [], vol.files)
      && Crash(vol.geo, vol.trail, vol.exposed)
    }

    lemma ToClose()
      requires Inv() && (cur.Writing? ==> Stored() && Recorded())
      ensures Closable()
    {
      hide MetaOf, Volume.L, Volume.Valid, Shows, Crash, FreeSet, FileData, Room, WriterAt, Size, Fits, Name, Sound, IsChain, IsFile, First;
      if cur.Writing? {
        CloseShows(vol.geo, vol.L(), vol.M(), vol.chains, cur.slot, Pending(), vol.files);
      }
    }

    /** The part of pclose behind the flush.  */
    method Clear()
      modifies this
      ensures cur == Closed
      ensures bufat == bufend == filesize == floc == frem == writelink == direntry == fclust == firstcluster == 0
    {
      bufat := 0;
      bufend := 0;
      filesize := 0;
      floc := 0;
      frem := 0;
      writelink := 0;
      direntry := 0;
      fclust := 0;
      firstcluster := 0;
      cur := Closed;
    }

    method Reset()
      requires Closable()
      modifies this
      ensures Inv() && cur == Closed
      ensures bufat == bufend == filesize == floc == frem == writelink == direntry == fclust == firstcluster == 0
    {
      hide MetaOf, Volume.L, Volume.Valid, Consistent, Shows, Crash;
      Clear();
    }

    // ------------------------------------------------------------ the reader

    /** The cluster that the next sector is read from.  */
    ghost function NextClust(): int
      requires vol.Valid() && (frem == 0 ==> 0 <= fclust < vol.geo.totclusters)
      reads this, vol, vol.buf2
    {
      if frem == 0 then vol.M().fat[fclust] else fclust
    }

    /** Reads the next sector into the empty buffer.  */
    method PFillBuf() returns (r: Result<int>)
      requires vol.Valid() && buf.Length == SECTORSIZE && buf != vol.buf2
      requires floc < filesize && frem == 0 ==> 0 <= fclust < vol.geo.totclusters
      requires floc < filesize && (frem == 0 ==> 2 <= NextClust() < vol.geo.totclusters) ==>
                 0 <= NextClust() * vol.geo.Spc() + vol.geo.dataregion + floc / SECTORSIZE % vol.geo.Spc() < |vol.disk|
      modifies this`fatptr, this`writelink, this`fclust, this`frem, this`floc, this`bufat, this`bufend, buf
      modifies vol`disk, vol`trail, vol`dirty, vol`lastread, vol.buf2
      ensures vol.Valid() && vol.L() == old(vol.L())
      ensures Grown(vol.geo, old(vol.trail), vol.trail, vol.M())
      ensures old(!vol.dirty) ==> !vol.dirty && vol.disk == old(vol.disk) && vol.trail == old(vol.trail)
      ensures old(floc >= filesize) ==> r == Ok(-1) && unchanged(this) && unchanged(buf) && unchanged(vol) && unchanged(vol.buf2)
      ensures old(floc < filesize && frem == 0 && !(2 <= NextClust() < vol.geo.totclusters)) ==> r == Abort(-9)
      ensures old(floc < filesize && (frem == 0 ==> 2 <= NextClust() < vol.geo.totclusters)) ==>
                && fclust == old(NextClust())
                && r == Ok(Min(SECTORSIZE, filesize - old(floc))) && floc == old(floc) + r.value
                && frem == (if old(frem) == 0 then Min(vol.geo.ClusterSize(), filesize - old(floc)) else old(frem)) - r.value
                && bufat == 0 && bufend == r.value
                && buf[..] == vol.disk[fclust * vol.geo.Spc() + vol.geo.dataregion + old(floc) / SECTORSIZE % vol.geo.Spc()]
    {
      hide MetaOf, Volume.L, Volume.Valid, Geometry.Spc;
      if floc >= filesize {
        return Ok(-1);
      }
      if frem == 0 {
        var next := NextCluster();
        if next.Abort? {
          return next;
        }
        fclust := next.value;
        frem := Min(vol.geo.ClusterSize(), filesize - floc);
      }
      vol.ReadBlock(DataBlock(), buf);
      var n := SECTORSIZE;
      if floc + n >= filesize {
        n := filesize - floc;
      }
      floc := floc + n;
      frem := frem - n;
      bufat := 0;
      bufend := n;
      return Ok(n);
    }

    function Tell(): int
      reads this
    {
      floc + bufat - bufend
    }

    /** Nothing changed that others can see: the logical disk, the files and their
        chains.  */
    twostate predicate OnlyRead()
      reads vol, vol.buf2
    {
      && old(vol.Valid()) && vol.Valid() && vol.L() == old(vol.L()) && vol.geo == old(vol.geo)
      && vol.files == old(vol.files) && vol.chains == old(vol.chains) && vol.exposed == old(vol.exposed)
      && !vol.dirty
    }

    /** No file is open, and the variables are as pclose leaves them.  */
    ghost predicate Rested()
      reads this
    {
      cur == Closed && floc == frem == filesize == bufat == bufend == 0
    }

    /** An object that can be asked for bytes: it has a file open for reading, or no
        file since the last close.  */
    ghost predicate Readable()
      reads this
    {
      cur.Reading? || Rested()
    }

    /** The same file is open for reading, or still none.  */
    twostate predicate SameFile()
      reads this
    {
      if old(cur.Reading?) then cur.Reading? && cur.slot == old(cur.slot) else Rested()
    }

    /** Refilling the buffer.  */
    method Fill() returns (r: Result<int>)
      requires Inv() && Readable() && bufat >= bufend
      modifies this`fatptr, this`writelink, this`fclust, this`frem, this`floc, this`bufat, this`bufend, this`cur, buf
      modifies vol`disk, vol`trail, vol`dirty, vol`lastread, vol.buf2
      ensures Inv() && SameFile() && OnlyRead()
      ensures Key() == old(Key()) && Text() == old(Text()) && Tell() == old(Tell())
      ensures r == Ok(if old(floc) >= filesize then -1 else bufend) && (r.value > 0 <==> bufat < bufend)
      ensures (r.value == -1 <==> Tell() >= filesize) && (r.value > 0 || r.value == -1)
    {
      hide MetaOf, Volume.L, Volume.Valid, Shows, Crash, FileData, Room, ReaderAt, Size, Fits, Name, Sound, IsChain, First;
      hide Buffered, Grown, Geometry.Spc, Geometry.Wf, Consistent;
      ReaderPos();
      ghost var k := 0;
      if cur.Reading? && floc < filesize {
        k := FillFrom();
      }
      assert cur.Reading? ==> Text() == FileData(vol.geo, vol.L(), Chain(), filesize) && vol.L() == vol.disk;
      ghost var d, cl, data, was := vol.L(), Chain(), Text(), buf[..];
      r := PFillBuf();
      assert old(floc) >= filesize ==> buf[..] == was;
      if cur.Reading? {
        assert Text() == FileData(vol.geo, d, cl, filesize) == data;
        if old(floc) < filesize {
          cur := cur.(k := k);
        }
        assert Text() == data;
        assert Buffered(data, buf[..], floc, bufend);
      }
    }

    /** Where the next sector of a reader is, and what it holds.  */
    lemma FillFrom() returns (k: int)
      requires Inv() && cur.Reading? && floc < filesize
      ensures 0 <= k < |Chain()| && (frem == 0 ==> 0 <= fclust < vol.geo.totclusters)
      ensures NextClust() == Chain()[k] && 2 <= NextClust() < vol.geo.totclusters
      ensures var n, frem' := Min(SECTORSIZE, filesize - floc), if frem == 0 then Min(vol.geo.ClusterSize(), filesize - floc) else frem;
              var blk := NextClust() * vol.geo.Spc() + vol.geo.dataregion + floc / SECTORSIZE % vol.geo.Spc();
              && 0 <= blk < |vol.disk| && Buffered(Text(), vol.disk[blk], floc + n, n)
              && ReaderAt(vol.geo, Chain(), filesize, k, floc + n, frem' - n, 0, n, NextClust())
    {
      hide MetaOf, Volume.L, Volume.Valid, Shows, Crash, FileData, Room, ReaderAt, Size, Fits, Name, Sound, IsChain, First;
      hide Buffered, Geometry.Spc, Geometry.Wf, Consistent;
      ghost var g, m, d, cl := vol.geo, vol.M(), vol.L(), Chain();
      ChainOf(g, m, vol.chains, -1, cur.slot);
      ReaderBounds(g, cl, filesize, cur.k, floc, frem, bufat, bufend, fclust);
      var fc;
      k, fc := ReaderStep(g, m.fat, First(g, m.dir[cur.slot]), cl, filesize, cur.k, floc, frem, bufat, bufend, fclust);
      ReaderBuffer(g, d, cl, filesize, k, floc, fc);
      assert d == vol.disk && Text() == FileData(g, d, cl, filesize);
    }

    /** What the invariant says about the position of a reader.  */
    lemma ReaderPos()
      requires Inv() && Readable()
      ensures 0 <= Tell() <= filesize == |Text()| && 0 <= bufat <= bufend <= SECTORSIZE == buf.Length
      ensures Tell() + (bufend - bufat) <= filesize
      ensures direntry == 0 && buf != vol.buf2 && vol.Valid() && !vol.dirty
      ensures cur.Reading? ==> Key() in vol.files && vol.files[Key()].data == Text()
    {
      hide MetaOf, Volume.L, Volume.Valid, Crash, Room, Size, Name, Sound, IsChain, First, Geometry.Wf, FileBytes;
      if cur.Reading? {
        ReaderBounds(vol.geo, Chain(), filesize, cur.k, floc, frem, bufat, bufend, fclust);
        ChainOf(vol.geo, vol.M(), vol.chains, -1, cur.slot);
      }
    }

    /** Taking bytes out of the buffer of a reader moves its position.  */
    twostate lemma Taken(t: int)
      requires old(Inv()) && old(cur.Reading?) && 0 <= t <= old(bufend - bufat) && bufat == old(bufat) + t
      requires cur == old(cur) && floc == old(floc) && frem == old(frem) && bufend == old(bufend) && fclust == old(fclust)
      requires filesize == old(filesize) && direntry == old(direntry) && firstcluster == old(firstcluster)
      requires unchanged(vol) && unchanged(vol.buf2) && unchanged(buf)
      ensures Inv() && Key() == old(Key()) && Text() == old(Text()) && Tell() == old(Tell()) + t
    {
      hide MetaOf, Volume.L, Volume.Valid, Consistent, Shows, Crash, FileData, Room, ReaderAt, Size, Fits, Name, Buffered;
      ReaderTake(vol.geo, Chain(), filesize, cur.k, floc, frem, old(bufat), bufend, fclust, t);
      assert vol.Valid();
      assert buf[..] == old(buf[..]);
      assert Buffered(Text(), buf[..], floc, bufend);
      assert Consistent(vol.geo, vol.M(), vol.chains, W());
      assert Shows(vol.geo, vol.L(), vol.M(), vol.chains, W(), Pending(), vol.files);
      assert ReaderOk();
    }

    /** The next bytes of the buffer are those of the file at the position.  */
    lemma BufferedHere(t: int)
      requires Inv() && cur.Reading? && 0 <= t <= bufend - bufat
      ensures 0 <= bufat && bufat + t <= buf.Length == SECTORSIZE && 0 <= Tell() && Tell() + t <= |Text()|
      ensures buf[..][bufat..bufat + t] == Text()[Tell()..Tell() + t] && buf != vol.buf2
    {
      hide MetaOf, Volume.L, Volume.Valid, Consistent, Shows, Crash, FileData, Room, ReaderAt, Size, Fits, Name, Buffered;
      ReaderPos();
      BufferedSlice(Text(), buf[..], floc, bufend, bufat, t);
    }

    /** bytemove out of the buffer.  */
    method CopyOut(ubuf: array<byte>, at: int, t: int)
      requires Inv() && cur.Reading? && 0 < t <= bufend - bufat
      requires 0 <= at && at + t <= ubuf.Length && ubuf != buf && ubuf != vol.buf2
      modifies this`bufat, ubuf
      ensures Inv() && Key() == old(Key()) && Text() == old(Text()) && Tell() == old(Tell()) + t
      ensures 0 <= old(Tell()) && old(Tell()) + t <= |Text()|
      ensures ubuf[..] == old(ubuf[..at]) + Text()[old(Tell())..old(Tell()) + t] + old(ubuf[at + t..])
    {
      hide MetaOf, Volume.L, Volume.Valid, Inv, Key, Text;
      BufferedHere(t);
      ByteMove(ubuf, at, buf[..][bufat..bufat + t]);
      bufat := bufat + t;
      Taken(t);
    }

    /** `bytes` are the file's at the old position, and the position is behind
        them.  */
    twostate predicate Consumed(new bytes: seq<byte>)
      reads this, buf, vol, vol.buf2
    {
      && Inv() && old(Readable()) && SameFile() && OnlyRead()
      && Key() == old(Key()) && Text() == old(Text())
      && Tell() == old(Tell()) + |bytes| && 0 <= old(Tell()) <= Tell() <= |Text()|
      && bytes == Text()[old(Tell())..Tell()]
    }

    /** One round of the loop below: refills an empty buffer and copies from it.  */
    method ReadRound(ubuf: array<byte>, at: int, count: int) returns (r: Result<int>)
      requires Inv() && Readable() && 0 < count && 0 <= at && at + count <= ubuf.Length
      requires ubuf != buf && ubuf != vol.buf2
      modifies this`fatptr, this`writelink, this`fclust, this`frem, this`floc, this`bufat, this`bufend, this`cur, buf
      modifies vol`disk, vol`trail, vol`dirty, vol`lastread, vol.buf2, ubuf
      ensures if old(Tell()) == |old(Text())| then r == Ok(-1) && Consumed([]) && ubuf[..] == old(ubuf[..])
              else
                && r.Ok? && 0 < r.value <= count
                && Consumed(ubuf[at..at + r.value])
                && ubuf[..at] == old(ubuf[..at]) && ubuf[at + r.value..] == old(ubuf[at + r.value..])
    {
      hide MetaOf, Volume.L, Volume.Valid, Inv, Key, Text, Volume.M;
      ReaderPos();
      if bufat >= bufend {
        var f := Fill();
        if f.value <= 0 {
          return f;
        }
      }
      ReaderPos();
      var t := Min(bufend - bufat, count);
      ghost var was := ubuf[..];
      CopyOut(ubuf, at, t);
      ReaderPos();
      SpliceParts(was, ubuf[..], at, t, Text()[old(Tell())..Tell()]);
      return Ok(t);
    }

    /** Reads up to `count0` bytes into `ubuf` from `at0` on; -1 at the end of the
        file, or if there is none.  */
    method PRead(ubuf: array<byte>, at0: int, count0: int) returns (r: Result<int>)
      requires Inv() && Readable() && 0 <= at0 <= ubuf.Length && at0 + count0 <= ubuf.Length
      requires ubuf != buf && ubuf != vol.buf2
      modifies this`fatptr, this`writelink, this`fclust, this`frem, this`floc, this`bufat, this`bufend, this`cur, buf
      modifies vol`disk, vol`trail, vol`dirty, vol`lastread, vol.buf2, ubuf
      ensures Inv()
      ensures var n := if count0 > 0 then Min(count0, |old(Text())| - old(Tell())) else 0;
              && 0 <= n && r == Ok(if n == 0 && count0 > 0 then -1 else n)
              && at0 + n <= ubuf.Length && Consumed(ubuf[at0..at0 + n])
              && ubuf[..at0] == old(ubuf[..at0]) && ubuf[at0 + n..] == old(ubuf[at0 + n..])
    {
      hide MetaOf, Volume.L, Volume.Valid, Inv, Key, Text, Volume.M;
      var at, count, done := at0, count0, 0;
      ReaderPos();
      assert ubuf[at0..at0] == [];
      while count > 0
        invariant 0 <= done && count == count0 - done && at == at0 + done && (count0 > 0 ==> count >= 0) && (count0 <= 0 ==> done == 0)
        invariant at <= ubuf.Length && Consumed(ubuf[at0..at])
        invariant ubuf[..at0] == old(ubuf[..at0]) && ubuf[at..] == old(ubuf[at..])
        decreases count
      {
        ghost var was, p := ubuf[..], Tell();
        var t := ReadRound(ubuf, at, count);
        if t.value <= 0 {
          if done > 0 {
            return Ok(done);
          }
          return t;
        }
        SpliceMore(was, ubuf[..], at0, at, t.value);
        TextMore(Text(), old(Tell()), p, Tell());
        done := done + t.value;
        at := at + t.value;
        count := count - t.value;
      }
      return Ok(done);
    }

    method PGetc() returns (r: Result<int>)
      requires Inv() && Readable()
      modifies this`fatptr, this`writelink, this`fclust, this`frem, this`floc, this`bufat, this`bufend, this`cur, buf
      modifies vol`disk, vol`trail, vol`dirty, vol`lastread, vol.buf2
      ensures if old(Tell()) == |old(Text())| then r == Ok(-1) && Consumed([])
              else r.Ok? && 0 <= r.value < 256 && Consumed([r.value])
    {
      hide MetaOf, Volume.L, Volume.Valid, Volume.M, Inv, Key, Text;
      ReaderPos();
      if bufat >= bufend {
        var t := Fill();
        ReaderPos();
        if t.value <= 0 {
          return Ok(-1);
        }
      }
      BufferedHere(1);
      label before:
      assert buf[bufat] == buf[..][bufat..bufat + 1][0];
      assert [Text()[Tell()]] == Text()[Tell()..Tell() + 1];
      bufat := bufat + 1;
      Taken@before(1);
      return Ok(buf[bufat - 1]);
    }

    // --------------------------------------------------------------- seeking

    /** Where seek leaves `floc` and `frem` when it ends in cluster k: with a
        forward step from `off` bytes into a cluster, `frem` counts from there.  */
    ghost function SeekEnd(k: int, off: int, crossed: bool): int
      reads this, vol
    {
      if crossed then Min(Room(vol.geo, k) + off + vol.geo.ClusterSize(), filesize)
      else Min(Room(vol.geo, k + 1), filesize)
    }

    /** What the invariant says of the volume while a reader moves.  */
    ghost predicate Inv0()
      reads this, buf, vol, vol.buf2
    {
      && Closable() && direntry == 0
      && (if cur.Reading? then
            cur.slot in vol.chains && 0 <= cur.slot < |vol.M().dir| && filesize == Size(vol.M().dir[cur.slot])
          else cur == Closed && filesize == 0)
      && (Chain() != [] ==> firstcluster == Chain()[0])
    }

    /** Which cluster of its chain the object is in.  */
    ghost function K(): int
      reads this
    {
      if cur.Reading? then cur.k else 0
    }

    ghost function FirstOf(): int
      reads this, vol, vol.buf2
    {
      if cur.Reading? && vol.Valid() && 0 <= cur.slot < |vol.M().dir| then First(vol.geo, vol.M().dir[cur.slot]) else 0
    }

    lemma Inv0Facts()
      requires Inv0()
      ensures vol.Valid() && vol.geo.Wf() && Holds(vol.geo, vol.L()) && vol.L() == vol.disk && !vol.dirty
      ensures direntry == 0 && buf.Length == SECTORSIZE && buf != vol.buf2 && (Chain() != [] ==> firstcluster == Chain()[0])
      ensures !cur.Writing? && |vol.M().fat| == vol.geo.totclusters
      ensures IsChain(vol.geo, vol.M().fat, FirstOf(), Chain()) && AllData(vol.geo, Chain())
      ensures 0 <= filesize <= Room(vol.geo, |Chain()|)
      ensures Text() == FileData(vol.geo, vol.L(), Chain(), filesize)
    {
      hide MetaOf, Volume.L, FileData, Size, Sound, IsChain, First, Shows, Crash, Geometry.Wf, Consistent;
      if cur.Reading? {
        ChainOf(vol.geo, vol.M(), vol.chains, -1, cur.slot);
        FitsBounds(vol.geo, |Chain()|, filesize);
      } else {
        EmptyChain(vol.geo, vol.M().fat);
        NoFile(vol.geo, vol.L(), buf[..], fclust);
      }
    }

    twostate predicate SameSpot()
      reads this
    {
      floc == old(floc) && frem == old(frem) && bufat == old(bufat) && bufend == old(bufend) && fclust == old(fclust)
    }

    /** One round of the loop below: to the next cluster.  */
    method SeekNext(pos: int, ghost first: int, ghost k: int) returns (r: Result<()>)
      requires vol.Valid() && !vol.dirty && vol.geo.Wf() && 0 <= k < |Chain()| && fclust == Chain()[k]
      requires IsChain(vol.geo, vol.M().fat, first, Chain()) && Room(vol.geo, k + 1) <= pos <= filesize <= Room(vol.geo, |Chain()|)
      modifies this`fatptr, this`writelink, this`fclust, this`frem, this`floc, this`bufat, this`bufend
      modifies vol`disk, vol`trail, vol`dirty, vol`lastread, vol.buf2
      ensures OnlyRead() && vol.trail == old(vol.trail) && vol.disk == old(vol.disk)
      ensures r == if k + 1 < |Chain()| then Ok(()) else Abort(-9)
      ensures r.Abort? ==> SameSpot()
      ensures r.Ok? ==>
                && k + 1 < |Chain()| && fclust == Chain()[k + 1] && bufat == bufend == 0
                && floc == old(floc) + vol.geo.ClusterSize() && frem == Min(vol.geo.ClusterSize(), filesize - floc)
    {
      hide MetaOf, Volume.L, Volume.Valid, Room, First, Geometry.Wf, Grown, Geometry.ClusterSize, Geometry.Spc, IsChain;
      SeekStep(vol.geo, vol.M().fat, first, Chain(), k);
      var next := NextCluster();
      if next.Abort? {
        return Abort(next.code);
      }
      fclust := next.value;
      floc := floc + vol.geo.ClusterSize();
      frem := Min(vol.geo.ClusterSize(), filesize - floc);
      bufat := 0;
      bufend := 0;
      return Ok(());
    }

    /** The loop of seek: forward along the chain, from its k0-th cluster on.  */
    method SeekForward(pos: int, delta0: int, ghost first: int, ghost k0: int, ghost off: int) returns (r: Result<()>, ghost k: int)
      requires vol.Valid() && !vol.dirty && vol.geo.Wf() && 0 <= k0 && floc == delta0 + off
      requires IsChain(vol.geo, vol.M().fat, first, Chain()) && filesize <= Room(vol.geo, |Chain()|)
      requires delta0 == Room(vol.geo, k0) <= pos <= filesize && (filesize > 0 ==> k0 < |Chain()| && fclust == Chain()[k0])
      modifies this`fatptr, this`writelink, this`fclust, this`frem, this`floc, this`bufat, this`bufend
      modifies vol`disk, vol`trail, vol`dirty, vol`lastread, vol.buf2
      ensures OnlyRead() && vol.trail == old(vol.trail) && vol.disk == old(vol.disk)
      ensures r == if 0 < filesize && Room(vol.geo, |Chain()|) <= pos then Abort(-9) else Ok(())
      ensures k0 <= k && Room(vol.geo, k) <= pos && floc == Room(vol.geo, k) + off
      ensures k == k0 ==> SameSpot()
      ensures k > k0 ==> bufat == bufend == 0 && frem == Min(vol.geo.ClusterSize(), filesize - floc)
      ensures r.Ok? ==> pos < Room(vol.geo, k + 1) && (filesize > 0 ==> k < |Chain()| && fclust == Chain()[k])
    {
      hide MetaOf, Volume.L, Volume.Valid, Room, First, Geometry.Wf, Grown, Geometry.ClusterSize, Geometry.Spc, IsChain;
      var clustersize := vol.geo.ClusterSize();
      var delta := delta0;
      k := k0;
      ghost var g, fat, cl, size := vol.geo, vol.M().fat, Chain(), filesize;
      SeekRoom(g, k);
      r := Ok(());
      while pos >= delta + clustersize
        invariant OnlyRead() && vol.trail == old(vol.trail) && vol.disk == old(vol.disk) && vol.M().fat == fat && Chain() == cl
        invariant k0 <= k && delta == Room(g, k) <= pos && (size > 0 ==> k < |cl| && fclust == cl[k])
        invariant floc == Room(g, k) + off && Room(g, k + 1) == Room(g, k) + clustersize && clustersize > 0 && r == Ok(())
        invariant if k == k0 then SameSpot() else bufat == bufend == 0 && frem == Min(clustersize, size - floc)
        decreases size - delta
      {
        r := SeekNext(pos, first, k);
        if r.Abort? {
          return;
        }
        delta := delta + clustersize;
        k := k + 1;
        SeekRoom(g, k);
      }
      if size > 0 {
        RoomMono(g, k + 1, |cl|);
      }
    }

    /** The start of the cluster that the buffer is from.  */
    function SeekBegin(): int
      reads this, vol
    {
      (floc - bufend) - (floc - bufend) % vol.geo.ClusterSize()
    }

    /** Where the loop of seek starts: the cluster of the buffer, or the first one.  */
    method SeekFrom(pos: int) returns (delta: int, ghost k: int, ghost off: int)
      requires ReaderAt(vol.geo, Chain(), filesize, K(), floc, frem, bufat, bufend, fclust)
      requires (Chain() != [] ==> firstcluster == Chain()[0]) && 0 <= pos <= filesize
      modifies this`fclust, this`frem, this`floc, this`bufat, this`bufend
      ensures 0 <= k && delta == Room(vol.geo, k) <= pos && floc == delta + off
      ensures filesize > 0 ==> k < |Chain()| && fclust == Chain()[k]
      ensures floc + frem == SeekEnd(k, off, false)
      ensures if pos < old(SeekBegin()) then k == bufat == bufend == off == 0
              else SameSpot() && k == K() && delta == old(SeekBegin()) && (off == 0 <==> floc == 0) && 0 <= off
    {
      hide Room, ReaderAt, Geometry.Wf, Geometry.ClusterSize, Geometry.Spc;
      SeekBase(vol.geo, Chain(), filesize, K(), floc, frem, bufat, bufend, fclust);
      SeekOne(vol.geo, filesize);
      var clustersize := vol.geo.ClusterSize();
      delta := (floc - bufend) - (floc - bufend) % clustersize;
      k, off := K(), floc - delta;
      if pos < delta {
        fclust := firstcluster;
        frem := Min(clustersize, filesize);
        floc := 0;
        bufat := 0;
        bufend := 0;
        delta := 0;
        k, off := 0, 0;
      }
    }

    /** The cluster part of seek; it aborts at the end of a file that fills its last
        cluster.  */
    method SeekWalk(pos: int) returns (r: Result<()>, ghost k: int, ghost off: int, ghost crossed: bool)
      requires Inv() && Readable() && 0 <= pos <= filesize
      modifies this`fatptr, this`writelink, this`fclust, this`frem, this`floc, this`bufat, this`bufend
      modifies vol`disk, vol`trail, vol`dirty, vol`lastread, vol.buf2
      ensures OnlyRead() && vol.trail == old(vol.trail) && vol.disk == old(vol.disk) && cur == old(cur)
      ensures r == if 0 < filesize && Room(vol.geo, |Chain()|) <= pos then Abort(-9) else Ok(())
      ensures r.Ok? ==>
                && 0 <= k && Room(vol.geo, k) <= pos < Room(vol.geo, k + 1)
                && (filesize > 0 ==> k < |Chain()| && fclust == Chain()[k])
                && floc + frem == SeekEnd(k, off, crossed)
                && (bufend == 0 || (!crossed && k == K() && SameSpot()))
                && bufend == (if crossed || pos < old(SeekBegin()) then 0 else old(bufend))
      ensures 0 <= off && (off == 0 <==> old(floc) == 0 || pos < old(SeekBegin()))
      ensures crossed ==> off == 0 || pos >= old(SeekBegin()) + vol.geo.ClusterSize()
      ensures !crossed && r.Ok? ==> off == 0 || pos < old(SeekBegin()) + vol.geo.ClusterSize()
    {
      hide MetaOf, Volume.L, Volume.Valid, FileData, Room, ReaderAt, First, Inv, Inv0, Text, Geometry.Wf;
      hide Buffered, Grown, Geometry.ClusterSize, Geometry.Spc, IsChain, AllData, SeekBegin;
      SeekStart();
      Inv0Facts();
      ghost var first := FirstOf();
      var delta;
      delta, k, off := SeekFrom(pos);
      ghost var k0 := k;
      r, k := SeekForward(pos, delta, first, k0, off);
      crossed := k > k0;
      SeekRoom(vol.geo, k0);
      SeekRoom(vol.geo, k);
      if crossed {
        RoomMono(vol.geo, k0 + 1, k);
      }
    }

    /** Whether seek to `pos` leaves the reader able to go on: it takes no forward
        step to another cluster, or nothing has been read yet, or it ends in the
        last cluster of the file.  */
    ghost predicate SeekSafe(pos: int)
      reads this, vol
    {
      var cs := vol.geo.ClusterSize();
      pos < SeekBegin() + cs || floc == 0 || filesize <= pos - pos % cs + cs
    }

    /** With clusters of one sector, after the first byte of a file of three sectors a
        seek to the second one is not safe.  */
    lemma SeekUnsafe()
      requires Inv() && cur.Reading? && vol.geo.clustershift == 0 && filesize == 3 * SECTORSIZE && floc == SECTORSIZE && bufat == 1
      ensures !SeekSafe(SECTORSIZE)
    {
      hide Inv, Geometry.ClusterSize;
      ClusterSizeIs(vol.geo);
      SeekStart();
      assert bufend == SECTORSIZE by {
        hide *;
        ReaderPos();
      }
      DivMod(0, vol.geo.ClusterSize(), 0);
      DivMod(1, vol.geo.ClusterSize(), 0);
    }

    /** Where `frem` says that the current cluster ends: too late exactly if the seek
        was not safe.  */
    ghost predicate ClusterEnds(safe: bool)
      reads this, vol
    {
      && cur.Reading? && Min(Room(vol.geo, cur.k + 1), filesize) <= floc + frem <= filesize
      && (safe <==> floc + frem == Min(Room(vol.geo, cur.k + 1), filesize))
    }

    /** The buffer holds the sector of `pos`, which is the position.  */
    ghost predicate At(pos: int)
      reads this, buf, vol, vol.buf2
    {
      && cur.Reading? && cur.k >= 0 && Tell() == pos && 0 <= bufat <= bufend && Buffered(Text(), buf[..], floc, bufend)
      && Room(vol.geo, cur.k) <= pos < Room(vol.geo, cur.k + 1) && pos < floc
      && floc - bufend == pos - pos % SECTORSIZE && bufend == Min(SECTORSIZE, filesize - (floc - bufend))
      && cur.k < |Chain()| && fclust == Chain()[cur.k]
    }

    /** At the very end of the file the buffer stays what it was if no byte of its
        last sector is before `pos`.  */
    twostate predicate EndLoaded(pos: int)
      reads this, buf
    {
      && floc == pos && (pos % SECTORSIZE == 0 ==> floc + frem == old(floc + frem))
      && (if pos % SECTORSIZE == 0 then bufend == old(bufend) && buf[..] == old(buf[..]) else bufend == pos % SECTORSIZE)
    }

    /** The buffer part of seek: reads the sector of `pos`.  */
    method SeekBuffer(pos: int, ghost k: int, ghost end: int)
      requires Inv0() && 0 <= pos <= filesize == |Text()| && 0 <= k && Room(vol.geo, k) <= pos < Room(vol.geo, k + 1)
      requires filesize > 0 ==> k < |Chain()| && fclust == Chain()[k]
      requires end == floc + frem && Min(Room(vol.geo, k + 1), filesize) <= end <= filesize
      modifies this`fatptr, this`writelink, this`fclust, this`frem, this`floc, this`bufat, this`bufend, buf
      modifies vol`disk, vol`trail, vol`dirty, vol`lastread, vol.buf2
      ensures OnlyRead() && vol.trail == old(vol.trail) && cur == old(cur)
      ensures pos < filesize ==>
                && fclust == old(Chain()[k]) && floc + frem == end && bufend == Min(SECTORSIZE, filesize - (floc - bufend)) > 0
                && floc - bufend == pos - pos % SECTORSIZE && Buffered(old(Text()), buf[..], floc, bufend)
      ensures pos == filesize ==> EndLoaded(pos)
    {
      hide MetaOf, Volume.L, Volume.Valid, FileData, Room, Buffered, Inv0, Text, Geometry.Wf;
      hide Geometry.ClusterSize, Geometry.Spc, Grown, Size, IsChain;
      Inv0Facts();
      assert Chain() == old(Chain());
      ghost var g, d, cl := vol.geo, vol.L(), Chain();
      var delta := floc + frem;
      floc := pos - pos % SECTORSIZE;
      frem := delta - floc;
      if pos < filesize || pos % SECTORSIZE != 0 {
        SeekSector(g, k, pos);
        ReaderBuffer(g, d, cl, filesize, k, floc, fclust);
      }
      assert d == vol.disk;
      var r := PFillBuf();
    }

    /** The outcome of SeekBuffer, or of leaving the buffer alone, for the invariant.  */
    lemma SeekDone(pos: int, end: int)
      requires Inv0() && 0 <= pos < filesize && cur.k >= 0 && 0 <= bufend && bufat == pos % SECTORSIZE
      requires Room(vol.geo, cur.k) <= pos < Room(vol.geo, cur.k + 1)
      requires cur.k < |Chain()| && fclust == Chain()[cur.k] && floc + frem == end
      requires bufend == Min(SECTORSIZE, filesize - (floc - bufend)) && floc - bufend == pos - pos % SECTORSIZE
      requires Buffered(Text(), buf[..], floc, bufend)
      ensures At(pos) && (Inv() <==> end == Min(Room(vol.geo, cur.k + 1), filesize))
    {
      hide Buffered, Geometry.ClusterSize, Geometry.Spc, Inv, Inv0, Chain, Text;
      var g, cl := vol.geo, Chain();
      Inv0Facts();
      InvFrom0();
      RoomSectors(g, cur.k);
      RoomSectors(g, cur.k + 1);
      hide Room;
      SeekFloc(pos, filesize, Room(g, cur.k), Room(g, cur.k + 1), floc, bufend);
      assert ReaderAt(g, cl, filesize, cur.k, floc, frem, bufat, bufend, fclust) <==> end == Min(Room(g, cur.k + 1), filesize);
      hide ReaderAt;
    }

    /** What is missing of the invariant while a reader moves.  */
    lemma InvFrom0()
      requires Inv0() && cur.Reading?
      ensures Inv() <==>
                ReaderAt(vol.geo, Chain(), filesize, cur.k, floc, frem, bufat, bufend, fclust) && Buffered(Text(), buf[..], floc, bufend)
    {
      hide MetaOf, Volume.L, Volume.Valid, FileData, Shows, Crash, FreeSet, Size, Name, Consistent, First, Buffered, ReaderAt;
    }

    /** What seek starts from.  */
    lemma SeekStart()
      requires Inv() && Readable()
      ensures Inv0() && ReaderAt(vol.geo, Chain(), filesize, K(), floc, frem, bufat, bufend, fclust)
      ensures 0 <= filesize == |Text()| && buf.Length == SECTORSIZE && buf != vol.buf2 && 0 <= bufend && vol.geo.ClusterSize() > 0
      ensures (floc - bufend) % SECTORSIZE == 0 && bufend <= floc && Buffered(Text(), buf[..], floc, bufend)
      ensures bufend > 0 ==> bufend == Min(SECTORSIZE, filesize - (floc - bufend))
    {
      hide MetaOf, Volume.L, Volume.Valid, FileData, FreeSet, Size, Name, Sound, IsChain, First, Consistent, Shows, Crash;
      hide Geometry.ClusterSize, Geometry.Spc, Room, Buffered, ReaderAt;
      ReaderPos();
      SeekOne(vol.geo, 0);
      NoFile(vol.geo, vol.L(), buf[..], fclust);
      ReaderWhole(vol.geo, Chain(), filesize, K(), floc, frem, bufat, bufend, fclust);
    }

    /** Where seek has left `floc` and `frem`.  */
    lemma SeekEnds(pos: int, k: int, off: int, crossed: bool, start: int, floc0: int)
      requires 0 <= k && 0 <= off && Room(vol.geo, k) <= pos < Room(vol.geo, k + 1) && 0 <= pos <= filesize
      requires off == 0 <==> floc0 == 0 || pos < start
      requires crossed ==> off == 0 || pos >= start + vol.geo.ClusterSize()
      requires !crossed ==> off == 0 || pos < start + vol.geo.ClusterSize()
      ensures var cs, end := vol.geo.ClusterSize(), SeekEnd(k, off, crossed);
              && cs > 0 && Min(Room(vol.geo, k + 1), filesize) <= end <= filesize
              && (end == Min(Room(vol.geo, k + 1), filesize)
                  <==> pos < start + cs || floc0 == 0 || filesize <= pos - pos % cs + cs)
    {
      SeekOne(vol.geo, 0);
      assert Room(vol.geo, k + 1) == Room(vol.geo, k) + vol.geo.ClusterSize();
      RoomTimes(vol.geo, k, pos - Room(vol.geo, k));
      hide Room, Geometry.ClusterSize;
    }

    twostate lemma Inv0Kept()
      requires old(Inv0()) && OnlyRead() && vol.trail == old(vol.trail)
      requires if old(cur.Reading?) then cur.Reading? && cur.slot == old(cur.slot) else cur == Closed
      requires filesize == old(filesize) && firstcluster == old(firstcluster) && direntry == old(direntry)
      ensures Inv0() && Chain() == old(Chain()) && Text() == old(Text())
    {
      hide MetaOf, Volume.L, Volume.Valid, FileData, Size, Consistent, Shows, Crash;
    }

    /** The buffer either is empty or holds the sector that it ends with.  */
    ghost predicate Whole()
      reads this, buf, vol, vol.buf2
    {
      && 0 <= bufend
      && (bufend > 0 ==> bufend == Min(SECTORSIZE, filesize - (floc - bufend)) && (floc - bufend) % SECTORSIZE == 0
                         && Buffered(Text(), buf[..], floc, bufend))
    }

    /** Reads the sector of `pos` unless it is in the buffer.  */
    method SeekLoad(pos: int, ghost k: int, ghost end: int)
      requires Inv0() && 0 <= pos <= filesize == |Text()| && 0 <= k && Room(vol.geo, k) <= pos < Room(vol.geo, k + 1)
      requires filesize > 0 ==> k < |Chain()| && fclust == Chain()[k]
      requires end == floc + frem && Min(Room(vol.geo, k + 1), filesize) <= end <= filesize && Whole()
      modifies this`fatptr, this`writelink, this`fclust, this`frem, this`floc, this`bufat, this`bufend, buf
      modifies vol`disk, vol`trail, vol`dirty, vol`lastread, vol.buf2
      ensures OnlyRead() && vol.trail == old(vol.trail) && cur == old(cur)
      ensures pos < filesize ==>
                && fclust == old(Chain()[k]) && floc + frem == end && bufend == Min(SECTORSIZE, filesize - (floc - bufend)) && 0 <= bufend
                && floc - bufend == pos - pos % SECTORSIZE && Buffered(old(Text()), buf[..], floc, bufend)
      ensures pos == filesize ==> EndLoaded(pos)
    {
      hide MetaOf, Volume.L, Volume.Valid, FileData, Room, Inv, Inv0, Text, Buffered, Volume.M, Chain;
      Inv0Facts();
      if bufend == 0 || pos < floc - bufend || pos >= floc - bufend + SECTORSIZE {
        SeekBuffer(pos, k, end);
      } else {
        SectorStart(pos, floc - bufend);
      }
    }

    /** The part of seek behind its loop.  */
    method SeekSettle(pos: int, ghost k: int, ghost end: int)
      requires Inv0() && 0 <= pos <= filesize == |Text()| && 0 <= k && Room(vol.geo, k) <= pos < Room(vol.geo, k + 1)
      requires filesize > 0 ==> k < |Chain()| && fclust == Chain()[k]
      requires end == floc + frem && Min(Room(vol.geo, k + 1), filesize) <= end <= filesize && Whole()
      modifies this`fatptr, this`writelink, this`fclust, this`frem, this`floc, this`bufat, this`bufend, this`cur, buf
      modifies vol`disk, vol`trail, vol`dirty, vol`lastread, vol.buf2
      ensures OnlyRead() && vol.trail == old(vol.trail) && Text() == old(Text()) && Inv0()
      ensures cur == if old(cur.Reading?) then old(cur).(k := k) else Closed
      ensures pos < filesize ==> At(pos) && (Inv() <==> end == Min(Room(vol.geo, k + 1), filesize)) && floc + frem == end
      ensures pos == filesize ==> EndLoaded(pos) && bufat == pos % SECTORSIZE
    {
      hide MetaOf, Volume.L, Volume.Valid, FileData, Room, Inv, Inv0, Text, At, Buffered, Volume.M, Chain;
      Inv0Facts();
      SeekLoad(pos, k, end);
      Inv0Kept();
      bufat := pos % SECTORSIZE;
      if cur.Reading? {
        cur := cur.(k := k);
      }
      Inv0Kept();
      if pos < filesize {
        SeekDone(pos, end);
      }
    }

    /** What seek to the very end of the file comes to: the abort, if the file fills
        its last cluster, or the answer 0.  Then the position is the end, unless the
        end is that of a sector, something has been read, and no forward step was
        taken: the buffer is the old one and is read again.  */
    twostate predicate AtEnd(new r: Result<int>)
      reads this, buf, vol
    {
      var cs := vol.geo.ClusterSize();
      && r == (if 0 < filesize && filesize % cs == 0 then Abort(-9) else Ok(0))
      && (r.Ok? ==>
            && floc == filesize
            && if filesize % SECTORSIZE != 0 || old(bufend) == 0 || filesize >= old(SeekBegin()) + cs then Tell() == filesize
               else Tell() == filesize - old(bufend) && bufat == 0 && bufend == old(bufend) && buf[..] == old(buf[..]))
    }

    lemma SeekFills()
      requires Inv() && Readable()
      ensures 0 < filesize ==> (Room(vol.geo, |Chain()|) <= filesize <==> filesize % vol.geo.ClusterSize() == 0)
      ensures 0 <= filesize <= Room(vol.geo, |Chain()|) && SeekBegin() <= filesize && (floc == 0 ==> bufend == 0)
    {
      hide MetaOf, Volume.L, Volume.Valid, Shows, Crash, FileData, Room, Size, Fits, Name, Sound, IsChain, First, Buffered, Geometry.ClusterSize;
      SeekOne(vol.geo, 0);
      if cur.Reading? {
        ChainOf(vol.geo, vol.M(), vol.chains, -1, cur.slot);
        FitsBounds(vol.geo, |Chain()|, filesize);
      }
      if 0 < filesize {
        FillsLast(vol.geo, |Chain()|, filesize);
      }
      hide Consistent;
      DivBounds(floc - bufend, vol.geo.ClusterSize());
    }

    /** seek without a file open for writing.  */
    method SeekReader(pos: int) returns (r: Result<int>)
      requires Inv() && Readable() && 0 <= pos <= filesize
      modifies this`fatptr, this`writelink, this`fclust, this`frem, this`floc, this`bufat, this`bufend, this`cur, buf
      modifies vol`disk, vol`trail, vol`dirty, vol`lastread, vol.buf2
      ensures OnlyRead()
      ensures pos < filesize ==>
                && r == Ok(0) && cur.Reading? && cur.slot == old(cur.slot) && Text() == old(Text()) && At(pos)
                && (Inv() <==> old(SeekSafe(pos))) && ClusterEnds(old(SeekSafe(pos)))
      ensures pos == filesize ==> AtEnd(r)
      ensures old(Rested()) ==> Rested() && Inv()
    {
      hide MetaOf, Volume.L, Volume.Valid, FileData, Room, Inv, Inv0, Text, At, Buffered, Volume.M, Chain, Geometry.ClusterSize;
      hide ReaderAt, SeekBegin;
      SeekStart();
      SeekFills();
      ghost var start, floc0 := SeekBegin(), floc;
      var w, k, off, crossed := SeekWalk(pos);
      Inv0Kept();
      if w.Abort? {
        return Abort(w.code);
      }
      SeekEnds(pos, k, off, crossed, start, floc0);
      SeekSettle(pos, k, SeekEnd(k, off, crossed));
      RestedInv();
      return Ok(0);
    }

    lemma RestedInv()
      requires Inv0()
      ensures cur == Closed ==> Inv()
    {
      hide MetaOf, Volume.L, Volume.M, Volume.Valid, Consistent, Shows, Crash;
    }

    /** Moves a reader to `pos`; without a file, after a close, only 0 is one.  The bytes up to the end of that sector can then be
        read; for those behind it the invariant of the reader is needed, and it
        holds exactly if SeekSafe.  */
    method Seek(pos: int) returns (r: Result<int>)
      requires Inv() && (Readable() || cur.Writing?)
      modifies this`fatptr, this`writelink, this`fclust, this`frem, this`floc, this`bufat, this`bufend, this`cur, buf
      modifies vol`disk, vol`trail, vol`dirty, vol`lastread, vol.buf2
      ensures vol.Valid() && vol.L() == old(vol.L()) && vol.files == old(vol.files)
      ensures old(cur.Writing?) || pos < 0 || pos > old(filesize) ==> r == Ok(-1) && unchanged(this) && unchanged(buf) && unchanged(vol) && unchanged(vol.buf2)
      ensures old(cur.Reading?) && 0 <= pos < filesize ==>
                && r == Ok(0) && cur.Reading? && cur.slot == old(cur.slot) && Text() == old(Text()) && At(pos)
                && (Inv() <==> old(SeekSafe(pos))) && ClusterEnds(old(SeekSafe(pos)))
      ensures old(Readable()) && pos == filesize ==> AtEnd(r)
      ensures old(Readable()) && 0 <= pos <= filesize ==> OnlyRead()
      ensures old(Rested()) ==> Rested() && Inv()
    {
      hide MetaOf, Volume.L, Volume.Valid, Consistent, Shows, Crash, FileData, Room, ReaderAt, Size, Fits, Name, Buffered;
      hide Geometry.ClusterSize, Geometry.Spc;
      WriterSlot();
      if !cur.Writing? {
        SeekFills();
      }
      hide Inv, SeekBegin, At, SeekSafe;
      if direntry != 0 || pos < 0 || pos > filesize {
        return Ok(-1);
      }
      r := SeekReader(pos);
    }

    /** What the next two methods know of the reader.  */
    ghost predicate Astray(d: Disk, cl: seq<int>, k: int, end: int)
      reads this, buf, vol, vol.buf2
    {
      && vol.Valid() && !vol.dirty && vol.L() == d && buf.Length == SECTORSIZE && buf != vol.buf2
      && AllData(vol.geo, cl) && 0 <= k < |cl| && fclust == cl[k] && filesize <= Room(vol.geo, |cl|)
      && floc % SECTORSIZE == 0 && Room(vol.geo, k) <= floc <= Room(vol.geo, k + 1) < end == floc + frem <= filesize
    }

    lemma AstrayNow(pos: int, d: Disk, cl: seq<int>)
      requires vol.Valid() && !vol.dirty && vol.L() == d && buf.Length == SECTORSIZE && buf != vol.buf2
      requires AllData(vol.geo, cl) && filesize <= Room(vol.geo, |cl|) && Chain() == cl && At(pos) && 0 <= pos && ClusterEnds(false)
      ensures Astray(d, cl, cur.k, floc + frem) && Room(vol.geo, cur.k) < floc
    {
      hide Volume.L, Volume.Valid, Buffered, Text, Room, AllData, Chain;
      RoomSectors(vol.geo, cur.k + 1);
      AstrayArith(pos, Room(vol.geo, cur.k), Room(vol.geo, cur.k + 1), floc, frem, bufend, filesize);
    }

    lemma AstrayInside(d: Disk, cl: seq<int>, k: int, end: int)
      requires Astray(d, cl, k, end) && Room(vol.geo, k) < floc
      ensures vol.geo.ClusterSize() > 0 && (floc % vol.geo.ClusterSize() != 0 <==> floc < Room(vol.geo, k + 1))
      ensures k + 1 < |cl| && floc <= Room(vol.geo, k + 1) < filesize
    {
      SeekRoom(vol.geo, k);
      RoomTimes(vol.geo, k + 1, 0);
      hide Room, Volume.L, Volume.Valid, Geometry.ClusterSize;
      if floc < Room(vol.geo, k + 1) {
        RoomTimes(vol.geo, k, floc - Room(vol.geo, k));
      }
    }

    /** Refilling inside the cluster.  */
    method AstrayFill(ghost d: Disk, ghost cl: seq<int>, ghost k: int, ghost end: int)
      requires Astray(d, cl, k, end) && floc < Room(vol.geo, k + 1)
      modifies this`fatptr, this`writelink, this`fclust, this`frem, this`floc, this`bufat, this`bufend, buf
      modifies vol`disk, vol`trail, vol`dirty, vol`lastread, vol.buf2
      ensures Astray(d, cl, k, end) && floc > old(floc)
    {
      hide MetaOf, Volume.L, Volume.Valid, Room, Buffered, FileData, Geometry.Wf, Geometry.Spc, AllData;
      assert Holds(vol.geo, d);
      RoomSectors(vol.geo, k + 1);
      ReaderBuffer(vol.geo, d, cl, filesize, k, floc, fclust);
      var r := PFillBuf();
    }

    /** Refilling at its end: `frem` is not 0, so the chain is not followed.  */
    method AstrayEnd(ghost d: Disk, ghost cl: seq<int>, ghost k: int, ghost end: int)
      requires Astray(d, cl, k, end) && floc == Room(vol.geo, k + 1)
      modifies this`fatptr, this`writelink, this`fclust, this`frem, this`floc, this`bufat, this`bufend, buf
      modifies vol`disk, vol`trail, vol`dirty, vol`lastread, vol.buf2
      ensures vol.Valid() && vol.L() == d && Holds(vol.geo, d) && vol.geo.IsData(cl[k]) && vol.geo.Spc() > 0
      ensures Tell() == old(floc) && 0 < bufend && buf[..] == Sector(vol.geo, d, cl[k], 0)
    {
      hide MetaOf, Volume.L, Volume.Valid, Geometry.Wf;
      assert Holds(vol.geo, d) && vol.geo.IsData(cl[k]);
      RoomIs(vol.geo, k + 1);
      hide Room, Geometry.Spc;
      DivMod(k + 1, vol.geo.Spc(), 0);
      RegionsApart(vol.geo, cl[k], 0);
      var r := PFillBuf();
    }

    /** After a seek that was not safe, reading on to the end of the cluster and then
        refilling the buffer yields the first sector of that cluster again, where the
        file goes on in the next one.  */
    method SeekLoses(pos: int)
      requires Inv() && cur.Reading? && 0 <= pos < filesize && !SeekSafe(pos)
      modifies this`fatptr, this`writelink, this`fclust, this`frem, this`floc, this`bufat, this`bufend, this`cur, buf
      modifies vol`disk, vol`trail, vol`dirty, vol`lastread, vol.buf2
      ensures cur.Reading? && 0 <= cur.k && cur.k + 1 < |Chain()| && Chain() == old(Chain()) && vol.Valid() && vol.L() == old(vol.L())
      ensures Room(vol.geo, cur.k) <= pos < Room(vol.geo, cur.k + 1) == Tell() < filesize && 0 < bufend
      ensures Holds(vol.geo, vol.L()) && vol.geo.IsData(Chain()[cur.k]) && vol.geo.Spc() > 0
      ensures buf[..] == Sector(vol.geo, vol.L(), Chain()[cur.k], 0)
    {
      hide MetaOf, Volume.L, Volume.Valid, Room, FileData, Inv, Text, Buffered, Volume.M, Astray, Inv0;
      SeekStart();
      Inv0Facts();
      ghost var d, cl := vol.L(), Chain();
      var r := Seek(pos);
      ghost var k, end := cur.k, floc + frem;
      AstrayNow(pos, d, cl);
      var clustersize := vol.geo.ClusterSize();
      while floc % clustersize != 0
        invariant Astray(d, cl, k, end) && clustersize == vol.geo.ClusterSize() && Room(vol.geo, k) < floc
        invariant cur == old(cur).(k := k) && Chain() == cl
        decreases Room(vol.geo, k + 1) - floc
      {
        AstrayInside(d, cl, k, end);
        AstrayFill(d, cl, k, end);
      }
      AstrayInside(d, cl, k, end);
      AstrayEnd(d, cl, k, end);
    }

    /** With clusters of four sectors and a file of two, both read: seek to the end
        answers 0, but the position is 512 and what comes next is the second sector
        again.  */
    method SeekEndReplays() returns (r: Result<int>)
      requires Inv() && cur.Reading? && vol.geo.clustershift == 2 && filesize == floc == 1024 && bufend == 512
      modifies this`fatptr, this`writelink, this`fclust, this`frem, this`floc, this`bufat, this`bufend, this`cur, buf
      modifies vol`disk, vol`trail, vol`dirty, vol`lastread, vol.buf2
      ensures r == Ok(0) && Tell() == 512 && bufat == 0 && bufend == 512 && buf[..] == old(Text()[512..])
    {
      hide Inv, Text, Geometry.ClusterSize, At, ClusterEnds, SeekSafe, OnlyRead, Inv0, ReaderAt, Volume.L, Volume.Valid;
      SeekStart();
      ClusterSizeIs(vol.geo);
      DivMod(0, vol.geo.ClusterSize(), 512);
      DivMod(0, vol.geo.ClusterSize(), 1024);
      assert buf[..][..512] == buf[..] && Text()[512..1024] == Text()[512..];
      hide Buffered;
      r := Seek(1024);
    }

    // --------------------------------------------------------------- opening

    /** Compares the name buffer with the slot at place s of `buf2`.  */
    method NameEqual(s: int) returns (same: bool)
      requires vol.padname.Length == 11 && vol.buf2.Length == SECTORSIZE && 0 <= s <= SECTORSIZE - DIRSIZE
      ensures same <==> vol.buf2[s..s + 11] == vol.padname[..]
    {
      var i := 0;
      while i < 11
        invariant 0 <= i <= 11
        invariant forall k :: 0 <= k < i ==> vol.padname[k] == vol.buf2[s..s + 11][k]
      {
        if vol.padname[i] != vol.buf2[s + i] {
          assert vol.buf2[s..s + 11][i] != vol.padname[..][i];
          return false;
        }
        i := i + 1;
      }
      assert vol.buf2[s..s + 11] == vol.padname[..];
      return true;
    }

    /** Looks at slot i through the cache.  */
    method ReadSlot(dirptr: int, ghost i: int) returns (s: int)
      requires vol.Valid() && 0 <= i < vol.geo.Slots() && dirptr == vol.geo.SlotAddr(i)
      modifies vol`disk, vol`trail, vol`dirty, vol`lastread, vol.buf2
      ensures vol.Valid() && vol.L() == old(vol.L()) && vol.buf2.Length == SECTORSIZE
      ensures vol.lastread == vol.geo.SlotBlk(i) && s == vol.geo.SlotOff(i) && 0 <= s <= SECTORSIZE - DIRSIZE
      ensures vol.buf2[s..s + DIRSIZE] == vol.M().dir[i]
      ensures Grown(vol.geo, old(vol.trail), vol.trail, vol.M())
      ensures old(!vol.dirty) ==> !vol.dirty && vol.disk == old(vol.disk) && vol.trail == old(vol.trail)
    {
      SlotPlace(vol.geo, i);
      s := vol.ReadByteC(dirptr);
      assert vol.M().dir[i] == DirSlot(vol.geo, vol.L(), i);
    }

    /** The search of popen.  If it found the name, `dirptr` is the address of the
        slot and s its place in `buf2`; `freeentry` and `sentinel` are addresses
        of slots, or 0.  */
    method FindEntry() returns (found: bool, dirptr: int, s: int, freeentry: int, sentinel: int, ghost k: int, ghost f: int)
      requires vol.Valid() && !vol.dirty && vol.padname.Length == 11
      modifies vol`disk, vol`trail, vol`dirty, vol`lastread, vol.buf2
      ensures vol.Valid() && vol.L() == old(vol.L()) && !vol.dirty
      ensures vol.disk == old(vol.disk) && vol.trail == old(vol.trail)
      ensures freeentry == if f >= 0 then vol.geo.SlotAddr(f) else 0
      ensures Searched(vol.M().dir, k, old(vol.padname[..]), if f == k then -1 else f) && -1 <= f <= k && 0 <= k
      ensures found ==>
                && k < vol.geo.Slots() && vol.M().dir[k][0] != 0 && Match(vol.M().dir[k], old(vol.padname[..]))
                && dirptr == vol.geo.SlotAddr(k)
                && vol.lastread == vol.geo.SlotBlk(k) && s == vol.geo.SlotOff(k)
                && vol.buf2.Length == SECTORSIZE && 0 <= s <= SECTORSIZE - DIRSIZE
                && vol.buf2[s..s + DIRSIZE] == vol.M().dir[k]
      ensures !found && sentinel == 0 ==> k == vol.geo.Slots() && f < k
      ensures !found && sentinel != 0 ==>
                && k < vol.geo.Slots() && sentinel == vol.geo.SlotAddr(k) && vol.M().dir[k][0] == 0 && f >= 0
    {
      hide MetaOf, Volume.L, Volume.Valid, Name, Special, Match, Searched, Vacant;
      SearchedNone(vol.M().dir, vol.padname[..]);
      ghost var g, n, dir := vol.geo, vol.padname[..], vol.M().dir;
      found, freeentry, sentinel, s := false, 0, 0, 0;
      k, f := 0, -1;
      dirptr := vol.geo.rootdir;
      while dirptr <= vol.geo.rootdirend - DIRSIZE
        invariant vol.Valid() && vol.L() == old(vol.L()) && !vol.dirty
        invariant vol.disk == old(vol.disk) && vol.trail == old(vol.trail)
        invariant 0 <= k <= g.Slots() && dirptr == g.SlotAddr(k) && sentinel == 0 && !found
        invariant Searched(dir, k, n, f)
        invariant freeentry == if f >= 0 then g.SlotAddr(f) else 0
        decreases g.Slots() - k
      {
        SlotOffsetIs(g, k);
        s := ReadSlot(dirptr, k);
        assert vol.buf2[s..s + DIRSIZE][0] == vol.buf2[s];
        ghost var f0 := f;
        SearchedBounds(dir, k, n, f);
        if freeentry == 0 && (vol.buf2[s] == 0 || vol.buf2[s] == 0xe5) {
          freeentry := dirptr;
          f := k;
        }
        if vol.buf2[s] == 0 {
          sentinel := dirptr;
          return;
        }
        var same := NameEqual(s);
        SlotMatch(vol.buf2[..], s, dir[k], n);
        if same && vol.buf2[s + 0x0b] / 8 % 4 == 0 {
          found := true;
          return;
        }
        SearchedNext(dir, k, n, f0, f);
        k := k + 1;
        dirptr := dirptr + DIRSIZE;
      }
      SearchedBounds(dir, k, n, f);
    }

    /** The fields of the slot at place s of `buf2`.  */
    method LoadEntry(s: int, ghost e: Slot)
      requires vol.buf2.Length == SECTORSIZE && 0 <= s <= SECTORSIZE - DIRSIZE && vol.buf2[s..s + DIRSIZE] == e
      modifies this`fclust, this`firstcluster, this`filesize
      ensures fclust == firstcluster == First(vol.geo, e) && filesize == Size(e)
    {
      SlotFields(vol.geo, vol.buf2[..], s, e);
      assert vol.buf2[..][s..s + DIRSIZE] == e;
      fclust := Le16(vol.buf2[..], s + 0x1a);
      if vol.geo.filesystem == 2 {
        fclust := Long(fclust + Le16(vol.buf2[..], s + 0x14) * 0x1_0000);
      }
      firstcluster := fclust;
      filesize := Le32(vol.buf2[..], s + 0x1c);
    }

    /** The variables of an object without an open file that has found slot k.  */
    ghost predicate Found(k: int)
      reads this, buf, vol, vol.buf2
    {
      && Closable() && cur == Closed && k in vol.chains && 0 <= k < |vol.M().dir|
      && bufat == 0 && bufend == 0 && floc == 0 && frem == 0 && direntry == 0 && writelink == 0
      && fclust == firstcluster == First(vol.geo, vol.M().dir[k]) && filesize == Size(vol.M().dir[k])
    }

    method OpenRead(ghost k: int)
      requires Found(k)
      modifies this`frem, this`cur
      ensures Inv() && cur == Reading(k, 0) && Tell() == 0
      ensures Text() == FileData(vol.geo, vol.L(), vol.chains[k], Size(vol.M().dir[k]))
    {
      hide MetaOf, Volume.L, Volume.Valid, Consistent, Shows, Crash, FileData, Room, ReaderAt, Size, Fits, Name, First, IsChain, FileBytes;
      ChainOf(vol.geo, vol.M(), vol.chains, -1, k);
      ReaderStart(vol.geo, vol.M().fat, fclust, vol.chains[k], filesize);
      frem := Min(vol.geo.ClusterSize(), filesize);
      cur := Reading(k, 0);
      assert buf[..][..0] == [];
      assert Buffered(Text(), buf[..], 0, 0);
    }

    /** `if (fclust) freeclusters(fclust)`, for a chain that nothing leads to.  */
    method FreeOld(ghost cl: seq<int>, ghost ch: map<int, seq<int>>) returns (r: Result<()>)
      requires vol.Valid() && Consistent(vol.geo, vol.M(), ch, -1) && AllData(vol.geo, cl)
      requires if cl == [] then fclust == 0 || fclust >= vol.geo.EndOfChain()
               else IsWalk(vol.geo, vol.M().fat, fclust, cl) && Unlinked(vol.geo, vol.M(), cl[0]) && fclust != 0
      requires Crash(vol.geo, vol.trail, vol.exposed)
      modifies this`fatptr, vol`disk, vol`trail, vol`dirty, vol`lastread, vol.buf2
      ensures vol.Valid() && SameData(vol.geo, old(vol.L()), vol.L()) && r == Ok(())
      ensures vol.M() == old(vol.M()).(fat := Zeroed(old(vol.M()).fat, cl))
      ensures vol.M().fat == GivenUp(vol.geo, old(vol.M()).fat, fclust)
      ensures Consistent(vol.geo, vol.M(), ch, -1)
      ensures |FreeSet(vol.geo, vol.M().fat)| == |FreeSet(vol.geo, old(vol.M()).fat)| + |cl|
      ensures Crash(vol.geo, vol.trail, vol.exposed)
    {
      hide MetaOf, Volume.L, Volume.Valid, Consistent, Crash, FreeSet, AllData, IsWalk, Unlinked, Sound, FreeChain, AllSound, SameData;
      ghost var m := vol.M();
      r := Ok(());
      if fclust != 0 {
        FreedKeeps(vol.geo, m, ch, fclust, cl);
        r := FreeClusters(fclust);
        CrashPrefix(vol.geo, old(vol.trail), vol.trail, vol.exposed);
      } else {
        assert Zeroed(m.fat, cl) == m.fat;
        SameDataSelf(vol.geo, vol.L());
      }
    }

    /** The slot that was found is the one in `buf2`, at place s.  */
    ghost predicate InBuffer(k: int, s: int)
      reads vol, vol.buf2
    {
      && vol.buf2.Length == SECTORSIZE && 0 <= k < vol.geo.Slots()
      && vol.lastread == vol.geo.SlotBlk(k) && s == vol.geo.SlotOff(k)
    }

    /** Mode "d".  */
    method Delete(s: int, ghost k: int)
      requires Found(k) && InBuffer(k, s)
      modifies this`fatptr, vol`disk, vol`trail, vol`dirty, vol`lastread, vol`chains, vol`files, vol.buf2
      ensures Inv() && vol.files == old(vol.files) - {old(Name(vol.M().dir[k]))} && vol.chains == old(vol.chains) - {k}
      ensures vol.M() == old(DeletedTables(vol.geo, vol.M(), k))
      ensures Clusters() == old(Clusters())
      ensures |FreeSet(vol.geo, vol.M().fat)| == old(|FreeSet(vol.geo, vol.M().fat)| + |vol.chains[k]|) && Free() >= old(Free())
      ensures Tidy()
    {
      hide MetaOf, Volume.L, Volume.Valid, Consistent, Shows, Crash, FreeSet, AllData, IsWalk, Unlinked, Sound, SameData, Pool;
      hide Name, First, Size, Put16, Grown, IsChain, Zeroed, Fits, Spare, HeadsOf, NoStale, Tidy;
      ghost var g, m, d, ch, e := vol.geo, vol.M(), vol.L(), vol.chains, vol.M().dir[k];
      ghost var cl, ch' := ch[k], ch - {k};
      ChainOf(g, m, ch, -1, k);
      ChainFirst(g, m, ch, k);
      vol.StoreSlotWord(s, 0xe5, k, 0);
      DeletedFields(e);
      DeleteKeeps(g, m, ch, k, Put16(e, 0, 0xe5));
      ghost var d1 := vol.L();
      var r := FreeOld(cl, ch');
      SameDataTrans(g, d, d1, vol.L());
      ghost var t := vol.trail;
      vol.FlushIfDirty();
      ConsistentSound(g, vol.M(), ch', -1);
      CrashOn(g, t, vol.trail, vol.M(), vol.exposed);
      DeleteShows(g, d, m, ch, vol.L(), vol.M(), k, vol.files);
      PoolAfterFree(g, m, ch, k, vol.M(), ch');
      FreedTidy(g, d, m, ch, k, vol.M(), ch', vol.files, vol.files - {Name(e)});
      vol.chains := ch';
      vol.files := vol.files - {Name(e)};
      IsTidy();
    }

    /** The slot loses its first cluster and size.  */
    method ClearSlot(s: int, ghost k: int)
      requires vol.Valid() && InBuffer(k, s)
      modifies vol`dirty, vol.buf2
      ensures vol.Valid() && SameData(vol.geo, old(vol.L()), vol.L())
      ensures vol.M() == old(vol.M()).(dir := old(vol.M()).dir[k := TruncatedSlot(old(vol.M()).dir[k])])
    {
      hide MetaOf, Volume.L, Volume.Valid, Put16, Put32, SameData;
      ghost var g, d, m := vol.geo, vol.L(), vol.M();
      vol.StoreSlotWord(s + 0x1a, 0, k, 0x1a);
      ghost var d1 := vol.L();
      vol.StoreSlotWord(s + 0x14, 0, k, 0x14);
      SameDataTrans(g, d, d1, vol.L());
      ghost var d2 := vol.L();
      vol.StoreSlotLong(s + 0x1c, 0, k, 0x1c);
      SameDataTrans(g, d, d2, vol.L());
      assert vol.M().dir == m.dir[k := TruncatedSlot(m.dir[k])];
    }

    /** What mode "w" does to the volume: the slot is cleared, then its clusters
        are freed.  */
    method CutChain(dirptr: int, s: int, ghost k: int)
      requires Found(k) && InBuffer(k, s) && dirptr == vol.geo.SlotAddr(k)
      modifies this`fatptr, this`writelink, this`direntry
      modifies vol`disk, vol`trail, vol`dirty, vol`lastread, vol`chains, vol`files, vol.buf2
      ensures vol.Valid() && vol.chains == old(vol.chains)[k := []] && writelink == 0 && direntry == dirptr
      ensures Consistent(vol.geo, vol.M(), vol.chains, k) && Crash(vol.geo, vol.trail, vol.exposed)
      ensures vol.M().dir[k] == TruncatedSlot(old(vol.M()).dir[k])
      ensures var n := Name(old(vol.M()).dir[k]);
              && n in old(vol.files)
              && vol.files == old(vol.files)[n := File(old(vol.files)[n].locked, [])]
              && Shows(vol.geo, vol.L(), vol.M(), vol.chains, k, [], vol.files)
      ensures Clusters() == old(Clusters())
      ensures |FreeSet(vol.geo, vol.M().fat)| == old(|FreeSet(vol.geo, vol.M().fat)| + |vol.chains[k]|)
      ensures Tidy()
    {
      hide MetaOf, Volume.L, Volume.Valid, Consistent, Shows, Crash, FreeSet, AllData, IsWalk, Unlinked, Sound, SameData, Pool;
      hide Name, First, Size, Put16, Grown, IsChain, Zeroed, Fits, FileData, Room, TruncatedSlot, Spare, HeadsOf, NoStale, Tidy;
      ghost var g, m, d, ch, e := vol.geo, vol.M(), vol.L(), vol.chains, vol.M().dir[k];
      ghost var cl, ch' := ch[k], ch[k := []];
      ChainOf(g, m, ch, -1, k);
      ChainFirst(g, m, ch, k);
      ClearSlot(s, k);
      TruncatedFields(g, e);
      TruncateKeeps(g, m, ch, k, TruncatedSlot(e));
      ghost var d1 := vol.L();
      writelink := 0;
      direntry := dirptr;
      var r := FreeOld(cl, ch');
      SameDataTrans(g, d, d1, vol.L());
      TruncateShows(g, d, m, ch, vol.L(), vol.M(), k, vol.files);
      PoolAfterFree(g, m, ch, k, vol.M(), ch');
      ConsistentAlso(g, vol.M(), ch', k);
      FreedTidy(g, d, m, ch, k, vol.M(), ch', vol.files, vol.files[Name(e) := File(vol.files[Name(e)].locked, [])]);
      vol.chains := ch';
      vol.files := vol.files[Name(e) := File(vol.files[Name(e)].locked, [])];
      IsTidy();
    }

    /** Mode "w" for a file that exists.  */
    method Truncate(dirptr: int, s: int, ghost k: int)
      requires Found(k) && InBuffer(k, s) && dirptr == vol.geo.SlotAddr(k)
      modifies this, vol`disk, vol`trail, vol`dirty, vol`lastread, vol`chains, vol`files, vol.buf2
      ensures Inv() && cur == Writing(k) && Key() == old(Name(vol.M().dir[k])) && Pending() == []
      ensures Key() in old(vol.files) && floc + bufat == 0
      ensures Capacity() == old(Room(vol.geo, |vol.chains[k]| + |FreeSet(vol.geo, vol.M().fat)|))
      ensures vol.files == old(vol.files)[Key() := File(old(vol.files)[Key()].locked, [])]
      ensures vol.chains == old(vol.chains)[k := []]
      ensures Clusters() == old(Clusters())
      ensures |FreeSet(vol.geo, vol.M().fat)| == old(|FreeSet(vol.geo, vol.M().fat)| + |vol.chains[k]|)
      ensures Tidy()
    {
      hide MetaOf, Volume.L, Volume.Valid, Consistent, Shows, Crash, FreeSet, Pool, Name, First, Size, Room, TruncatedSlot, WriterAt;
      hide InBuffer, FileData, Volume.M, Tidy;
      TruncatedFields(vol.geo, vol.M().dir[k]);
      CutChain(dirptr, s, k);
      bufend := SECTORSIZE;
      fclust := 0;
      filesize := 0;
      frem := 0;
      WriterStart(vol.geo, vol.M().fat, 0);
      cur := Writing(k);
      NoBytes(vol.geo, vol.L());
      assert Pending() == FileData(vol.geo, vol.L(), [], 0) + buf[..0] == [];
    }

    /** Mode "a", first half: from the first cluster on to the last, counting off
        the bytes of the clusters passed.  */
    method AppendWalk(ghost slot: int) returns (r: Result<()>, ghost k: int)
      requires Found(slot)
      modifies this`fclust, this`frem, this`writelink, this`fatptr, vol`disk, vol`trail, vol`dirty, vol`lastread, vol.buf2
      ensures Closable() && OnlyRead() && vol.trail == old(vol.trail)
      ensures r == Ok(()) && 0 <= frem == filesize - Room(vol.geo, k) <= vol.geo.ClusterSize()
      ensures 0 <= k && (k > 0 ==> Room(vol.geo, k) < filesize)
      ensures if vol.chains[slot] == [] then k == 0 && fclust == 0
              else k == |vol.chains[slot]| - 1 && 2 <= fclust == vol.chains[slot][k] < vol.geo.totclusters
    {
      hide MetaOf, Volume.L, Volume.Valid, Consistent, Shows, Crash, Room, First, Size, Name, IsChain, Fits, Sound, Grown;
      ghost var g, m, cl := vol.geo, vol.M(), vol.chains[slot];
      ghost var first := fclust;
      ChainOf(g, m, vol.chains, -1, slot);
      ChainFirst(g, m, vol.chains, slot);
      FitsBounds(g, |cl|, filesize);
      frem := filesize;
      var size := vol.geo.ClusterSize();
      if fclust >= vol.geo.EndOfChain() {
        fclust := 0;
      }
      k := 0;
      FirstBelow(g, m.fat, first, cl);
      while frem > size
        invariant Closable() && OnlyRead() && vol.M() == m && vol.trail == old(vol.trail)
        invariant if cl == [] then k == 0 && fclust == 0 else 0 <= k < |cl| && fclust == cl[k] && 2 <= fclust < g.totclusters
        invariant 0 <= frem == filesize - Room(g, k) && (k > 0 ==> Room(g, k) < filesize)
        decreases frem
      {
        NoChainNoBytes(g, cl, filesize);
        AppendStep(g, m.fat, first, cl, filesize, k);
        if fclust < 2 {
          return Abort(-7), k;
        }
        var next := NextCluster();
        if next.Abort? {
          return Abort(next.code), k;
        }
        fclust := next.value;
        frem := frem - size;
        k := k + 1;
      }
      AppendLast(g, cl, filesize, k);
      r := Ok(());
    }

    /** The walk has reached the last cluster of the file in `slot`.  */
    ghost predicate AtLast(slot: int, k: int)
      reads this, buf, vol, vol.buf2
    {
      && Closable() && cur == Closed && slot in vol.chains && 0 <= slot < |vol.M().dir|
      && bufend == 0 && filesize == Size(vol.M().dir[slot])
      && 0 <= frem == filesize - Room(vol.geo, k) <= vol.geo.ClusterSize()
      && 0 <= k && (k > 0 ==> Room(vol.geo, k) < filesize)
      && if vol.chains[slot] == [] then k == 0 && fclust == 0
         else k == |vol.chains[slot]| - 1 && 2 <= fclust == vol.chains[slot][k] < vol.geo.totclusters
    }

    lemma AtLastFacts(slot: int, k: int)
      requires AtLast(slot, k)
      ensures Closable() && vol.Valid() && buf != vol.buf2 && buf.Length == SECTORSIZE && vol.L() == vol.disk && Holds(vol.geo, vol.L())
      ensures slot in vol.chains && Fits(vol.geo, |vol.chains[slot]|, filesize) && AllData(vol.geo, vol.chains[slot])
      ensures 0 <= frem == filesize - Room(vol.geo, k) <= vol.geo.ClusterSize() && 0 <= k && (k > 0 ==> Room(vol.geo, k) < filesize)
      ensures 0 <= filesize <= Room(vol.geo, |vol.chains[slot]|) && filesize < 0x8000_0000
      ensures if vol.chains[slot] == [] then k == 0 && fclust == 0
              else k == |vol.chains[slot]| - 1 && 2 <= fclust == vol.chains[slot][k] < vol.geo.totclusters
      ensures vol.geo.Wf() && vol.geo.ClusterSize() >= SECTORSIZE
    {
      hide MetaOf, Volume.L, Shows, Crash, Room, First, Size, Name, IsChain, Fits, Sound, Geometry.ClusterSize, Geometry.Wf;
      ChainOf(vol.geo, vol.M(), vol.chains, -1, slot);
      FitsBounds(vol.geo, |vol.chains[slot]|, filesize);
      SizeBound(vol.M().dir[slot]);
      ClusterSectors(vol.geo);
      hide Consistent;
    }

    /** Mode "a", second part: the position at the end of the file and the bytes
        already in its last sector.  */
    method AppendPlace(dirptr: int, ghost slot: int, ghost k: int)
      requires AtLast(slot, k)
      modifies this`floc, this`bufend, this`bufat, this`writelink, this`direntry, this`frem, buf
      ensures Closable() && vol.Valid() && bufend == SECTORSIZE && direntry == dirptr && floc + bufat == filesize && writelink == 0
      ensures WriterAt(vol.geo, vol.M().fat, vol.chains[slot], floc, frem, bufat, fclust,
                       if vol.chains[slot] == [] then 0 else vol.geo.FatAddr(fclust))
      ensures 0 <= bufat < buf.Length
      ensures FileData(vol.geo, vol.L(), vol.chains[slot], floc) + buf[..bufat] == FileData(vol.geo, vol.L(), vol.chains[slot], filesize)
    {
      hide MetaOf, Volume.L, Volume.Valid, Room, First, Size, Name, Fits, Geometry.Wf, Geometry.Spc;
      hide WriterAt, FreeSet, FileData, AllData, Geometry.ClusterSize, Closable, AtLast;
      AtLastFacts(slot, k);
      ghost var g, d, m, cl, size := vol.geo, vol.L(), vol.M(), vol.chains[slot], filesize;
      AppendAt(g, m.fat, cl, size, k, fclust, if cl == [] then 0 else g.FatAddr(fclust));
      var clustersize := vol.geo.ClusterSize();
      floc := filesize - filesize % SECTORSIZE;
      bufend := SECTORSIZE;
      bufat := frem % SECTORSIZE;
      writelink := 0;
      direntry := dirptr;
      if bufat != 0 {
        AppendBytes(g, d, cl, size, k);
        vol.ReadBlock(DataBlock(), buf);
        frem := clustersize - floc % clustersize;
      } else if fclust < 2 || frem == clustersize {
        frem := 0;
      } else {
        frem := clustersize - floc % clustersize;
      }
      AppendText(g, d, cl, size, k, buf[..]);
      assert buf[..][..bufat] == buf[..bufat];
    }

    /** Mode "a", last part: the link to the last cluster.  */
    method AppendSeek(dirptr: int, ghost slot: int, ghost k: int)
      requires AtLast(slot, k) && dirptr == vol.geo.SlotAddr(slot)
      modifies this, buf, vol`disk, vol`trail, vol`dirty, vol`lastread, vol.buf2
      ensures Inv() && cur == Writing(slot) && OnlyRead()
      ensures Pending() == FileData(vol.geo, vol.L(), vol.chains[slot], old(filesize))
      ensures floc + bufat == old(filesize)
    {
      hide MetaOf, Volume.L, Volume.Valid, Consistent, Shows, Crash, Room, First, Size, Name, IsChain, Fits, Sound, Grown;
      hide WriterAt, FreeSet, FileData, AllData, Geometry.ClusterSize;
      ghost var g, d, m, cl, size := vol.geo, vol.L(), vol.M(), vol.chains[slot], filesize;
      AppendPlace(dirptr, slot, k);
      if fclust >= 2 {
        var r := FollowChain();
      }
      ConsistentAlso(g, m, vol.chains, slot);
      OpenShows(g, d, m, vol.chains, slot, vol.files);
      cur := Writing(slot);
      assert Pending() == FileData(g, d, cl, size);
    }

    /** Fills slot f, at place s of `buf2`, for a new file.  */
    method FillSlot(s: int, pdate: int, ghost f: int)
      requires vol.Valid() && InBuffer(f, s) && vol.padname.Length == 11
      modifies vol`dirty, vol.buf2
      ensures vol.Valid() && SameData(vol.geo, old(vol.L()), vol.L())
      ensures vol.M() == old(vol.M()).(dir := old(vol.M()).dir[f := FreshSlot(vol.padname[..], pdate)])
    {
      hide MetaOf, Volume.L, Volume.Valid, Put16, Put32, SameData, Blank;
      ghost var g, d, m := vol.geo, vol.L(), vol.M();
      vol.BlankSlot(s, vol.padname[..], f);
      ghost var d1 := vol.L();
      vol.StoreSlotWord(s + 0x14, 0, f, 0x14);
      SameDataTrans(g, d, d1, vol.L());
      ghost var d2 := vol.L();
      vol.StoreSlotLong(s + 0xe, pdate, f, 0xe);
      SameDataTrans(g, d, d2, vol.L());
      ghost var d3 := vol.L();
      vol.StoreSlotLong(s + 0x16, pdate, f, 0x16);
      SameDataTrans(g, d, d3, vol.L());
      assert vol.M().dir == m.dir[f := FreshSlot(vol.padname[..], pdate)];
    }

    /** Makes the slot behind a new last entry the end mark.  */
    method MarkEnd(next: int, ghost f: int)
      requires vol.Valid() && 0 <= f && f + 1 < vol.geo.Slots() && next == vol.geo.SlotAddr(f + 1)
      requires vol.lastread == vol.geo.SlotBlk(f)
      modifies vol`disk, vol`trail, vol`dirty, vol`lastread, vol.buf2
      ensures vol.Valid() && SameData(vol.geo, old(vol.L()), vol.L())
      ensures vol.M() == old(vol.M()).(dir := old(vol.M()).dir[f + 1 := Put16(old(vol.M()).dir[f + 1], 0, 0)])
      ensures Grown(vol.geo, old(vol.trail), vol.trail, old(vol.M()))
      ensures f % 16 != 15 ==> vol.trail == old(vol.trail)
      ensures f % 16 == 15 ==> LastShows(vol.geo, vol.trail, old(vol.M()))
    {
      hide MetaOf, Volume.L, Volume.Valid, Put16, SameData;
      ghost var g, d := vol.geo, vol.L();
      SlotPlace(g, f + 1);
      var s := vol.ReadByteC(next);
      if f % 16 == 15 {
        DiskLast(vol);
      }
      vol.StoreSlotWord(s, 0, f + 1, 0);
    }

    lemma ClosableFacts()
      requires Closable()
      ensures vol.Valid() && !vol.dirty && Sound(vol.geo, vol.M()) && Crash(vol.geo, vol.trail, vol.exposed)
      ensures vol.buf2.Length == buf.Length == SECTORSIZE && buf != vol.buf2
      ensures cur == Closed && direntry == 0 ==> Inv()
    {
      hide MetaOf, Volume.L, Shows, Crash, Sound;
    }

    /** The writes of a creation: slot f is filled, and if it was the end mark, the
        next one becomes it.  `mid` is the trail before the second slot is
        touched.  */
    method WriteEntry(sentinel: int, pdate: int, ghost f: int) returns (ghost mid: seq<Disk>)
      requires vol.Valid() && !vol.dirty && vol.padname.Length == 11
      requires 0 <= f < vol.geo.Slots() && direntry == vol.geo.SlotAddr(f)
      requires if sentinel == direntry then vol.M().dir[f][0] == 0 else vol.M().dir[f][0] == 0xe5
      requires forall j :: 0 <= j < f ==> vol.M().dir[j][0] != 0
      modifies vol`disk, vol`trail, vol`dirty, vol`lastread, vol.buf2
      ensures vol.Valid() && !vol.dirty && SameData(vol.geo, old(vol.L()), vol.L())
      ensures vol.M() == old(vol.M()).(dir := vol.M().dir)
      ensures Created(old(vol.M()).dir, vol.M().dir, f, FreshSlot(vol.padname[..], pdate))
      ensures mid == old(vol.trail) ||
              Grown(vol.geo, old(vol.trail), mid, old(vol.M()).(dir := old(vol.M()).dir[f := FreshSlot(vol.padname[..], pdate)]))
      ensures old(vol.M().dir[f][0]) == 0xe5 || f % 16 != 15 ==> mid == old(vol.trail)
      ensures Exposes(old(vol.M()).dir, f) ==>
                LastShows(vol.geo, mid, old(vol.M()).(dir := old(vol.M()).dir[f := FreshSlot(vol.padname[..], pdate)]))
      ensures Grown(vol.geo, mid, vol.trail, vol.M())
    {
      hide MetaOf, Volume.L, Volume.Valid, FreshSlot, SameData, Grown, Put16, LastShows;
      ghost var g, m, d := vol.geo, vol.M(), vol.L();
      var s := ReadSlot(direntry, f);
      FillSlot(s, pdate, f);
      ghost var d1, m1 := vol.L(), vol.M();
      mid := vol.trail;
      if direntry == sentinel && direntry + DIRSIZE < vol.geo.rootdirend {
        WordZero(m1.dir, f + 1);
        MarkEnd(direntry + DIRSIZE, f);
        SameDataTrans(g, d, d1, vol.L());
        mid := vol.trail;
      }
      vol.FlushIfDirty();
    }

    lemma ClosableShows()
      requires Closable()
      ensures Consistent(vol.geo, vol.M(), vol.chains, -1) && vol.geo.Wf()
      ensures Shows(vol.geo, vol.L(), vol.M(), vol.chains, -1, [], vol.files)
    {
      hide MetaOf, Shows, Crash, Consistent;
    }

    /** What creating a file does to the volume; between its two block writes the
        disk is sound unless harmful stale slots follow the end mark.  */
    method NewEntry(sentinel: int, pdate: int, ghost f: int)
      requires Closable() && vol.padname.Length == 11 && vol.padname[0] != 0 && vol.padname[0] != 0xe5
      requires 0 <= f < vol.geo.Slots() && direntry == vol.geo.SlotAddr(f)
      requires if sentinel == direntry then vol.M().dir[f][0] == 0 else vol.M().dir[f][0] == 0xe5
      requires forall j :: 0 <= j < f ==> vol.M().dir[j][0] != 0
      modifies vol`disk, vol`trail, vol`dirty, vol`lastread, vol`exposed, vol.buf2
      ensures vol.Valid() && !vol.dirty && SameData(vol.geo, old(vol.L()), vol.L())
      ensures vol.M() == old(vol.M()).(dir := vol.M().dir)
      ensures Created(old(vol.M()).dir, vol.M().dir, f, FreshSlot(vol.padname[..], pdate))
      ensures vol.exposed == (old(vol.exposed) || HalfUnsafe(vol.geo, old(vol.M()), f))
      ensures Crash(vol.geo, vol.trail, vol.exposed)
    {
      hide MetaOf, Volume.L, Volume.Valid, Crash, Sound, FreshSlot, SameData, Grown, First, Closable, Created, Exposes, HalfUnsafe, LastShows, Consistent, Shows;
      ClosableFacts();
      ghost var g, m, t, e := vol.geo, vol.M(), vol.trail, FreshSlot(vol.padname[..], pdate);
      FreshFields(g, vol.padname[..], pdate);
      ghost var mid := WriteEntry(sentinel, pdate, f);
      DiskLast(vol);
      NewEntryCrash(g, m, vol.M(), t, mid, vol.trail, vol.disk, f, e, vol.exposed);
      vol.exposed := vol.exposed || HalfUnsafe(g, m, f);
    }

    /** The last part of popen: a new file in the first vacant slot, open for
        writing.  */
    method CreateEntry(freeentry: int, sentinel: int, pdate: int, ghost f: int, ghost k: int) returns (r: Result<int>)
      requires Closable() && cur == Closed && bufat == floc == frem == direntry == writelink == fclust == 0
      requires vol.padname.Length == 11 && vol.padname[0] != 0 && vol.padname[0] != 0xe5
      requires Searched(vol.M().dir, k, vol.padname[..], if f == k then -1 else f) && -1 <= f <= k
      requires freeentry == if f >= 0 then vol.geo.SlotAddr(f) else 0
      requires if sentinel == 0 then k == vol.geo.Slots() && f < k
               else k < vol.geo.Slots() && sentinel == vol.geo.SlotAddr(k) && vol.M().dir[k][0] == 0 && f >= 0
      modifies this, vol`disk, vol`trail, vol`dirty, vol`lastread, vol`exposed, vol`chains, vol`files, vol.buf2
      ensures Inv()
      ensures f < 0 ==> r == Abort(-2) && cur == Closed && unchanged(vol) && unchanged(vol.buf2)
      ensures f >= 0 ==>
                && r == Ok(0) && cur == Writing(f) && Key() == old(vol.padname[..]) && Pending() == [] && floc + bufat == 0
                && Key() !in old(vol.files) && vol.files == old(vol.files)[Key() := File(false, [])]
                && Capacity() == old(Room(vol.geo, |FreeSet(vol.geo, vol.M().fat)|))
                && vol.exposed == (old(vol.exposed) || old(Fragile(vol.geo, vol.M())))
                && f !in old(vol.chains) && vol.chains == old(vol.chains)[f := []]
      ensures Clusters() == old(Clusters()) && Tidy()
    {
      hide MetaOf, Volume.L, Volume.Valid, Consistent, Shows, Crash, FreeSet, Pool, Name, First, Size, Room, WriterAt;
      hide Fragile, Searched, NoStale, Wasted, Heads, Inv, Closable, Volume.M, Key, Pending, Capacity, Clusters;
      ClosableFacts();
      NoAddress(f);
      direntry := freeentry;
      if direntry == 0 {
        return Abort(-2);
      }
      AddVolumeEntry(sentinel, pdate, f, k);
      FreshWriter(f);
      r := Ok(0);
    }

    /** The end of popen for a file just created: it is open for writing.  */
    method FreshWriter(ghost f: int)
      requires vol.Valid() && f in vol.chains && vol.chains[f] == [] && 0 <= f < |vol.M().dir|
      requires buf.Length == SECTORSIZE && buf != vol.buf2 && bufat == floc == frem == 0
      requires direntry == vol.geo.SlotAddr(f) && Consistent(vol.geo, vol.M(), vol.chains, f)
      requires Shows(vol.geo, vol.L(), vol.M(), vol.chains, f, [], vol.files) && Crash(vol.geo, vol.trail, vol.exposed)
      modifies this`writelink, this`fclust, this`bufend, this`cur
      ensures Inv() && cur == Writing(f) && Pending() == [] && Key() == Name(vol.M().dir[f])
      ensures Capacity() == Room(vol.geo, |FreeSet(vol.geo, vol.M().fat)|)
    {
      hide MetaOf, Volume.L, Volume.Valid, Consistent, Shows, Crash, FreeSet, Name, Room, WriterAt;
      writelink := 0;
      fclust := 0;
      bufend := SECTORSIZE;
      cur := Writing(f);
      WriterStart(vol.geo, vol.M().fat, 0);
      NoBytes(vol.geo, vol.L());
      assert Pending() == FileData(vol.geo, vol.L(), [], 0) + buf[..0] == [];
      hide FileData;
    }

    lemma NoAddress(f: int)
      requires Closable()
      ensures 0 <= f < vol.geo.Slots() ==> vol.geo.SlotAddr(f) != 0
    {
      hide MetaOf, Shows, Crash, Consistent, Geometry.Spc;
      if 0 <= f < vol.geo.Slots() {
        SlotOffsetIs(vol.geo, f);
      }
    }

    method AddVolumeEntry(sentinel: int, pdate: int, ghost f: int, ghost k: int)
      requires Closable()
      requires vol.padname.Length == 11 && vol.padname[0] != 0 && vol.padname[0] != 0xe5
      requires Searched(vol.M().dir, k, vol.padname[..], if f == k then -1 else f) && 0 <= f <= k
      requires direntry == vol.geo.SlotAddr(f) && direntry != 0
      requires if sentinel == 0 then k == vol.geo.Slots() && f < k
               else k < vol.geo.Slots() && sentinel == vol.geo.SlotAddr(k) && vol.M().dir[k][0] == 0
      modifies vol`disk, vol`trail, vol`dirty, vol`lastread, vol`exposed, vol`chains, vol`files, vol.buf2
      ensures vol.Valid() && Crash(vol.geo, vol.trail, vol.exposed)
      ensures f !in old(vol.chains) && vol.chains == old(vol.chains)[f := []]
      ensures Consistent(vol.geo, vol.M(), vol.chains, f) && 0 <= f < |vol.M().dir| && vol.M().fat == old(vol.M()).fat
      ensures Name(vol.M().dir[f]) == old(vol.padname[..]) && old(vol.padname[..]) !in old(vol.files)
      ensures vol.files == old(vol.files)[old(vol.padname[..]) := File(false, [])]
      ensures Shows(vol.geo, vol.L(), vol.M(), vol.chains, f, [], vol.files)
      ensures vol.exposed == (old(vol.exposed) || old(Fragile(vol.geo, vol.M())))
      ensures Clusters() == old(Clusters()) && Tidy()
    {
      hide MetaOf, Volume.L, Volume.Valid, Consistent, Shows, Crash, Sound, FreshSlot, SameData, Created, HalfUnsafe, Pool, Name;
      hide Searched, Closable, Fragile, FirstVacant, NoStale, Spare, HeadsOf;
      ClosableFacts();
      ClosableShows();
      ghost var g, m, d, ch, n := vol.geo, vol.M(), vol.L(), vol.chains, vol.padname[..];
      ghost var e := FreshSlot(n, pdate);
      FreshFields(g, n, pdate);
      assert n[0] == vol.padname[0];
      SearchedNames(m.dir, k, n, if f == k then -1 else f);
      SearchedVacant(m.dir, k, n, f);
      SearchedFirst(m.dir, k, n, f);
      FragileAt(g, m, f);
      NewEntry(sentinel, pdate, f);
      CreateAll(g, d, m, ch, vol.L(), vol.M(), f, e, n, vol.files);
      CreatedTidy(g, d, m, ch, f, e, vol.M(), vol.files, n);
      vol.chains := ch[f := []];
      vol.files := vol.files[n := File(false, [])];
    }

    /** The slot of the file named `n`.  */
    ghost function SlotOf(n: seq<byte>): int
      reads vol, vol.buf2
    {
      if vol.Valid() then SlotNamed(vol.M(), vol.chains, n) else -1
    }

    /** How many bytes a file named `n` could hold: the free clusters and its own.  */
    ghost function RoomFor(n: seq<byte>): int
      reads vol, vol.buf2
    {
      if vol.Valid() then RoomNamed(vol.geo, vol.M(), vol.chains, n) else 0
    }

    /** What the search result means for the files.  */
    lemma FoundFile(k: int, n: seq<byte>)
      requires Closable() && 0 <= k < |vol.M().dir| && Match(vol.M().dir[k], n) && n[..1] != [0] && n[..1] != [0xe5]
      requires |n| == 11 && forall j :: 0 <= j <= k ==> vol.M().dir[j][0] != 0
      ensures k in vol.chains && Name(vol.M().dir[k]) == n && n in vol.files && SlotOf(n) == k
      ensures vol.files[n] == File(Locked(vol.M().dir[k]), FileData(vol.geo, vol.L(), vol.chains[k], Size(vol.M().dir[k])))
    {
      hide MetaOf, Volume.L, Volume.Valid, Crash, Sound, IsChain, Fits, FileData, Size, First, Special;
      assert vol.M().dir[k][0] == Name(vol.M().dir[k])[0] == n[0] == n[..1][0];
      assert IsFile(vol.M().dir, k);
    }

    lemma AbsentFile(k: int, n: seq<byte>, f: int)
      requires Closable() && Searched(vol.M().dir, k, n, f) && (k < |vol.M().dir| ==> vol.M().dir[k][0] == 0)
      ensures n !in vol.files && SlotOf(n) == -1
    {
      hide MetaOf, Volume.L, Volume.Valid, Crash, Sound, IsChain, Fits, FileData, Size, First, Special, Name, Searched;
      SearchedNames(vol.M().dir, k, n, f);
      NamesApart(vol.geo, vol.M(), vol.chains, n);
      assert n in vol.files ==> NameTaken(vol.M(), vol.chains, n);
    }

    /** Deleting, overwriting or extending a file that is not locked.  */
    method OpenToChange(dirptr: int, s: int, mode: byte, ghost k: int, ghost n: seq<byte>) returns (r: Result<int>)
      requires Found(k) && InBuffer(k, s) && dirptr == vol.geo.SlotAddr(k)
      requires Name(vol.M().dir[k]) == n && n in vol.files && SlotOf(n) == k && mode != MODE_R
      requires vol.files[n] == File(false, FileData(vol.geo, vol.L(), vol.chains[k], Size(vol.M().dir[k])))
      modifies this, buf, vol`disk, vol`trail, vol`dirty, vol`lastread, vol`chains, vol`files, vol.buf2
      ensures Inv() && vol.exposed == old(vol.exposed)
      ensures r == OpenedResult(old(vol.files), n, mode) && vol.files == OpenedFiles(old(vol.files), n, mode)
      ensures Clusters() == old(Clusters()) && Tidy()
      ensures if r.Ok? && mode != MODE_D then
                && cur.Writing? && Key() == n && Pending() == vol.files[n].data && floc + bufat == |Pending()|
                && Capacity() == old(RoomFor(n))
              else cur == Closed && Free() >= old(Free())
    {
      hide MetaOf, Volume.L, Volume.Valid, Consistent, Shows, Crash, FreeSet, Pool, Name, First, Size, Room, FileData;
      FoundInv(k);
      RoomIsFor(k, n);
      hide SlotOf, RoomFor, Inv, Closable, Capacity, LockedBits, Special;
      if mode == MODE_D {
        Delete(s, k);
        return Ok(0);
      }
      if mode == MODE_W {
        Truncate(dirptr, s, k);
        return Ok(0);
      } else if mode == MODE_A {
        r := OpenAppend(dirptr, k);
        return;
      } else {
        return Abort(-3);
      }
    }

    /** The part of popen that runs when the name was found.  */
    method OpenFound(dirptr: int, s: int, mode: byte, ghost k: int, ghost n: seq<byte>) returns (r: Result<int>)
      requires Found(k) && InBuffer(k, s) && dirptr == vol.geo.SlotAddr(k) && vol.buf2[s..s + DIRSIZE] == vol.M().dir[k]
      requires Name(vol.M().dir[k]) == n && n in vol.files && SlotOf(n) == k
      requires vol.files[n] == File(Locked(vol.M().dir[k]), FileData(vol.geo, vol.L(), vol.chains[k], Size(vol.M().dir[k])))
      modifies this, buf, vol`disk, vol`trail, vol`dirty, vol`lastread, vol`chains, vol`files, vol.buf2
      ensures Inv() && vol.exposed == old(vol.exposed)
      ensures r == OpenedResult(old(vol.files), n, mode) && vol.files == OpenedFiles(old(vol.files), n, mode)
      ensures Clusters() == old(Clusters()) && Tidy()
      ensures r.Abort? || mode == MODE_D ==> cur == Closed
      ensures mode == MODE_R ==> OnlyRead()
      ensures !cur.Writing? ==> Free() >= old(Free())
      ensures mode == MODE_R ==> cur.Reading? && Key() == n && Text() == old(vol.files)[n].data && Tell() == 0
      ensures r.Ok? && (mode == MODE_W || mode == MODE_A) ==>
                && cur.Writing? && Key() == n && Pending() == vol.files[n].data && floc + bufat == |Pending()|
                && Capacity() == old(RoomFor(n))
    {
      hide MetaOf, Volume.L, Volume.Valid, Consistent, Shows, Crash, FreeSet, Pool, Name, First, Size, Room, FileData;
      FoundInv(k);
      hide SlotOf, RoomFor, Inv, Closable, Capacity, LockedBits, Special;
      if mode == MODE_R {
        OpenRead(k);
        return Ok(0);
      }
      SlotFields(vol.geo, vol.buf2[..], s, vol.M().dir[k]);
      var attr := vol.buf2[s + 0x0b];
      if LockedBits(attr) {
        return Abort(-6);
      }
      r := OpenToChange(dirptr, s, mode, k, n);
    }

    lemma RoomIsFor(k: int, n: seq<byte>)
      requires vol.Valid() && k in vol.chains && SlotOf(n) == k && k >= 0
      ensures RoomFor(n) == Room(vol.geo, |vol.chains[k]| + |FreeSet(vol.geo, vol.M().fat)|)
    {
      hide SlotNamed, FreeSet, Room;
    }

    lemma FoundInv(k: int)
      requires Found(k)
      ensures Inv() && cur == Closed && Closable() && vol.Valid() && !vol.dirty
    {
      hide MetaOf, Volume.L, Volume.Valid, Consistent, Shows, Crash;
    }

    method OpenAppend(dirptr: int, ghost k: int) returns (r: Result<int>)
      requires Found(k) && dirptr == vol.geo.SlotAddr(k)
      modifies this, buf, vol`disk, vol`trail, vol`dirty, vol`lastread, vol.buf2
      ensures Inv() && r == Ok(0) && cur == Writing(k) && OnlyRead()
      ensures Pending() == FileData(vol.geo, vol.L(), vol.chains[k], old(filesize))
      ensures floc + bufat == old(filesize) == |Pending()| && Key() == old(Name(vol.M().dir[k]))
      ensures Capacity() == old(Room(vol.geo, |vol.chains[k]| + |FreeSet(vol.geo, vol.M().fat)|))
    {
      hide MetaOf, Volume.L, Volume.Valid, Consistent, Shows, Crash, FreeSet, Pool, Name, First, Size, Room, FileData;
      DataLength(k);
      var w, last := AppendWalk(k);
      AppendSeek(dirptr, k, last);
      r := Ok(0);
    }

    lemma DataLength(k: int)
      requires Found(k)
      ensures |FileData(vol.geo, vol.L(), vol.chains[k], filesize)| == filesize
    {
      hide MetaOf, Volume.Valid, Shows, Crash, Sound, IsChain, First, Size, Name;
      ChainOf(vol.geo, vol.M(), vol.chains, -1, k);
    }

    ghost predicate DirFull()
      reads vol, vol.buf2
    {
      vol.Valid() && NoneVacant(vol.M().dir)
    }

    lemma InvShape()
      requires Inv()
      ensures buf.Length == SECTORSIZE == vol.buf2.Length && buf != vol.buf2 && (cur == Closed ==> Closable() && direntry == 0)
    {
      hide MetaOf, Volume.L, Consistent, Shows, Crash;
    }

    lemma RoomIsNew(n: seq<byte>)
      requires vol.Valid() && SlotOf(n) == -1
      ensures RoomFor(n) == Room(vol.geo, |FreeSet(vol.geo, vol.M().fat)|)
    {
      hide SlotNamed, FreeSet, Room;
    }

    /** The part of popen that runs when the name was not found.  */
    method OpenAbsent(freeentry: int, sentinel: int, mode: byte, pdate: int, ghost f: int, ghost k: int, ghost n: seq<byte>)
      returns (r: Result<int>)
      requires Closable() && cur == Closed && bufat == floc == frem == direntry == writelink == fclust == 0
      requires vol.padname.Length == 11 && vol.padname[..] == n && vol.padname[0] != 0 && vol.padname[0] != 0xe5
      requires Searched(vol.M().dir, k, n, if f == k then -1 else f) && -1 <= f <= k
      requires freeentry == if f >= 0 then vol.geo.SlotAddr(f) else 0
      requires if sentinel == 0 then k == vol.geo.Slots() && f < k
               else k < vol.geo.Slots() && sentinel == vol.geo.SlotAddr(k) && vol.M().dir[k][0] == 0 && f >= 0
      modifies this, vol`disk, vol`trail, vol`dirty, vol`lastread, vol`exposed, vol`chains, vol`files, vol.buf2
      ensures Inv() && n !in old(vol.files) && Clusters() == old(Clusters()) && Tidy()
      ensures (mode != MODE_W && mode != MODE_A) || old(DirFull()) ==>
                && r == (if mode != MODE_W && mode != MODE_A then Ok(-1) else Abort(-2))
                && cur == Closed && unchanged(vol) && unchanged(vol.buf2)
      ensures (mode == MODE_W || mode == MODE_A) && !old(DirFull()) ==>
                && r == Ok(0) && cur.Writing? && Key() == n && Pending() == [] && floc + bufat == 0
                && vol.files == old(vol.files)[n := File(false, [])] && Capacity() == old(RoomFor(n))
                && vol.exposed == (old(vol.exposed) || old(Fragile(vol.geo, vol.M())))
    {
      hide MetaOf, Volume.L, Volume.Valid, Consistent, Shows, Crash, FreeSet, Pool, Name, First, Size, Room, FileData;
      ClosableFacts();
      hide SlotOf, RoomFor, DirFull, Capacity, Clusters, Fragile, NoStale, Wasted, Heads, Searched, Inv, Closable, Volume.M;
      AbsentFile(k, n, if f == k then -1 else f);
      FullIs(k, n, f);
      RoomIsNew(n);
      if mode != MODE_W && mode != MODE_A {
        return Ok(-1);
      }
      r := CreateEntry(freeentry, sentinel, pdate, f, k);
    }

    /** popen once the name is in the name buffer.  */
    method OpenEntry(mode: byte, pdate: int, ghost n: seq<byte>) returns (r: Result<int>)
      requires Inv() && cur == Closed && bufat == bufend == floc == frem == writelink == fclust == 0
      requires vol.padname.Length == 11 && vol.padname[..] == n && n[0] != 0 && n[0] != 0xe5
      modifies this, buf, vol`disk, vol`trail, vol`dirty, vol`lastread, vol`chains, vol`files, vol`exposed, vol.buf2
      ensures Inv() && Clusters() == old(Clusters()) && Tidy()
      ensures r.Abort? || r == Ok(-1) || mode == MODE_D ==> cur == Closed
      ensures mode == MODE_R ==> OnlyRead()
      ensures !cur.Writing? ==> Free() >= old(Free())
      ensures n in old(vol.files) ==>
                && r == OpenedResult(old(vol.files), n, mode)
                && vol.files == OpenedFiles(old(vol.files), n, mode)
                && vol.exposed == old(vol.exposed)
      ensures n !in old(vol.files) && mode != MODE_W && mode != MODE_A ==>
                r == Ok(-1) && vol.files == old(vol.files) && vol.exposed == old(vol.exposed)
      ensures n !in old(vol.files) && (mode == MODE_W || mode == MODE_A) ==>
                && r == (if old(DirFull()) then Abort(-2) else Ok(0))
                && vol.files == (if old(DirFull()) then old(vol.files) else old(vol.files)[n := File(false, [])])
                && vol.exposed == (old(vol.exposed) || (!old(DirFull()) && old(Fragile(vol.geo, vol.M()))))
      ensures r == Ok(0) && mode == MODE_R ==>
                cur.Reading? && Key() == n && Key() in vol.files && Text() == vol.files[Key()].data && Tell() == 0
      ensures r == Ok(0) && (mode == MODE_W || mode == MODE_A) ==>
                && cur.Writing? && Key() == n && Key() in vol.files && Pending() == vol.files[Key()].data
                && floc + bufat == |Pending()| && Capacity() == old(RoomFor(n))
    {
      hide MetaOf, Volume.L, Volume.Valid, Consistent, Shows, Crash, FreeSet, Pool, Name, First, Size, Room, FileData;
      hide SlotOf, RoomFor, DirFull, Free, Capacity, Clusters, Fragile, NoStale, Wasted, Heads, Searched, Match, Inv, Closable, Volume.M;
      hide Key, Text, Pending;
      InvShape();
      ClosableFacts();
      var found, dirptr, s, freeentry, sentinel;
      ghost var k, f;
      found, dirptr, s, freeentry, sentinel, k, f := FindEntry();
      SearchStays(n);
      if found {
        SearchedLive(vol.M().dir, k, n, f);
        assert n[..1] == [n[0]];
        FoundFile(k, n);
        LoadEntry(s, vol.M().dir[k]);
        r := OpenFound(dirptr, s, mode, k, n);
        return;
      }
      r := OpenAbsent(freeentry, sentinel, mode, pdate, f, k, n);
    }

    /** The search of popen changes nothing that matters.  */
    twostate lemma SearchStays(n: seq<byte>)
      requires old(Closable()) && vol.Valid() && vol.L() == old(vol.L()) && !vol.dirty && vol.trail == old(vol.trail)
      requires vol.geo == old(vol.geo) && vol.chains == old(vol.chains) && vol.files == old(vol.files) && vol.exposed == old(vol.exposed)
      ensures Closable() && vol.M() == old(vol.M()) && |vol.M().dir| == vol.geo.Slots()
      ensures Wasted() == old(Wasted()) && Heads() == old(Heads()) && Clusters() == old(Clusters()) && Free() == old(Free())
      ensures SlotOf(n) == old(SlotOf(n)) && RoomFor(n) == old(RoomFor(n)) && DirFull() == old(DirFull())
      ensures cur == Closed && direntry == 0 ==> Inv()
    {
      hide MetaOf, Volume.L, Volume.Valid, Consistent, Shows, Crash, FreeSet, Pool, HeadsOf, Spare, SlotNamed, RoomNamed, NoneVacant;
    }

    lemma FullIs(k: int, n: seq<byte>, f: int)
      requires vol.Valid() && Searched(vol.M().dir, k, n, if f == k then -1 else f) && -1 <= f <= k
      requires if k < |vol.M().dir| then vol.M().dir[k][0] == 0 && f >= 0 else f < k
      ensures DirFull() <==> f < 0
    {
      SearchedFull(vol.M().dir, k, n, f);
    }

    /** Closes what is open and opens the file named by `s`.  */
    method POpen(s: seq<byte>, mode: byte, pdate: int) returns (r: Result<int>)
      requires Inv() && vol.padname.Length == 11 && Padded(s)[0] != 0xe5
      modifies this, buf, vol`disk, vol`trail, vol`dirty, vol`lastread, vol`chains, vol`files, vol`exposed, vol.buf2, vol.padname
      ensures Inv() && Clusters() == old(Clusters()) && Tidy()
      ensures r.Abort? || r == Ok(-1) || mode == MODE_D ==> cur == Closed
      ensures mode == MODE_R && !old(cur.Writing?) ==> OnlyRead()
      ensures Space() >= old(Space())
      ensures !old(cur.Writing?) && !cur.Writing? ==>
                Free() >= old(Free() + Need(vol.files, vol.geo.ClusterSize())) - Need(vol.files, vol.geo.ClusterSize())
      ensures old(vol.exposed) ==> vol.exposed
      ensures vol.exposed ==> old(vol.exposed) || old(Exposing(Heads()))
      ensures Padded(s) in old(vol.files) ==>
                && r == OpenedResult(old(vol.files), Padded(s), mode)
                && vol.files == OpenedFiles(old(vol.files), Padded(s), mode)
                && vol.exposed == old(vol.exposed)
      ensures Padded(s) !in old(vol.files) && mode != MODE_W && mode != MODE_A ==>
                r == Ok(-1) && vol.files == old(vol.files) && vol.exposed == old(vol.exposed)
      ensures Padded(s) !in old(vol.files) && (mode == MODE_W || mode == MODE_A) ==>
                || (r == Ok(0) && vol.files == old(vol.files)[Padded(s) := File(false, [])])
                || (r == Abort(-2) && vol.files == old(vol.files) && vol.exposed == old(vol.exposed))
      ensures Padded(s) !in old(vol.files) && (mode == MODE_W || mode == MODE_A) && !old(cur.Writing?) ==>
                && (r == Abort(-2) <==> old(DirFull()))
                && vol.exposed == (old(vol.exposed) || (!old(DirFull()) && old(Fragile(vol.geo, vol.M()))))
      ensures r == Ok(0) && mode == MODE_R ==>
                cur.Reading? && Key() == Padded(s) && Key() in vol.files && Text() == vol.files[Key()].data && Tell() == 0
      ensures r == Ok(0) && (mode == MODE_W || mode == MODE_A) ==>
                && cur.Writing? && Key() == Padded(s) && Key() in vol.files && Pending() == vol.files[Key()].data
                && floc + bufat == |Pending()| && (!old(cur.Writing?) ==> Capacity() == old(RoomFor(Padded(s))))
    {
      hide MetaOf, Volume.L, Volume.Valid, Consistent, Shows, Crash, FreeSet, Pool, Name, First, Size, Room, FileData, Padded, Typable;
      PaddedTypable(s);
      TypableFirst(Padded(s));
      InvShape();
      hide SlotOf, RoomFor, Inv, Closable, DirFull, Need, Fragile, Free, Wasted, Heads, Exposing;
      var c := PClose();
      ParseName(s, vol.padname);
      FragileHeads();
      r := OpenEntry(mode, pdate, Padded(s));
      if !old(cur.Writing?) && !cur.Writing? {
        FreeGrows();
      }
    }

    /** What files give up is free.  */
    twostate lemma FreeGrows()
      requires old(Inv() && !cur.Writing?) && Inv() && !cur.Writing? && vol.geo == old(vol.geo)
      requires Clusters() == old(Clusters()) && Tidy()
      ensures Free() >= old(Free() + Need(vol.files, vol.geo.ClusterSize())) - Need(vol.files, vol.geo.ClusterSize())
    {
      hide MetaOf, Volume.L, Volume.M, Crash, FreeSet, FileData, Pool, Need, Consistent, Shows, NoStale, Heads, Spare;
      FreeIs();
      ClosedCount(vol.geo, old(vol.L()), old(vol.M()), old(vol.chains), old(vol.files));
    }

    /** Only stale slots make a creation unsafe.  */
    lemma FragileHeads()
      ensures vol.Valid() && Fragile(vol.geo, vol.M()) ==> Exposing(Heads())
    {
      hide MetaOf, Volume.L, Volume.Valid, Fragile, Exposing, HeadsOf;
      if vol.Valid() && Fragile(vol.geo, vol.M()) {
        FragileExposing(vol.geo, vol.M());
      }
    }

    lemma KeySlot()
      requires Inv() && cur.Writing?
      ensures cur.slot in vol.chains && 0 <= cur.slot < |vol.M().dir| && Key() == Name(vol.M().dir[cur.slot])
    {
      hide MetaOf, Volume.L, Crash, FreeSet, FileData, Pool, Size, Name, Shows, WriterAt;
      ChainOf(vol.geo, vol.M(), vol.chains, cur.slot, cur.slot);
    }

    /** A file open for writing can grow to any length for which, by the lengths of
        all files, there is space.  */
    lemma RoomToGrow(f: File)
      requires Inv() && cur.Writing? && Need(vol.files[Key() := f], vol.geo.ClusterSize()) <= Space()
      ensures |f.data| <= Capacity()
    {
      hide MetaOf, Volume.L, Crash, FreeSet, FileData, Pool, Size, Name, Need, Spare, Consistent, Shows, Room, WriterAt;
      KeySlot();
      WriterGrows(vol.geo, vol.L(), vol.M(), vol.chains, cur.slot, Pending(), vol.files, f);
    }

    /** Without a file open for writing the free clusters are what the files do not
        need.  */
    lemma FreeIs()
      requires Inv() && !cur.Writing?
      ensures Free() == Space() - Need(vol.files, vol.geo.ClusterSize())
    {
      hide MetaOf, Volume.L, Crash, FreeSet, FileData, Pool, Need, Spare, Consistent, Shows;
      ClosedCount(vol.geo, vol.L(), vol.M(), vol.chains, vol.files);
    }

    lemma RoomOfFile(k: int)
      requires Inv() && cur == Closed && k in vol.chains
      ensures 0 <= k < |vol.M().dir| && Name(vol.M().dir[k]) in vol.files
      ensures Room(vol.geo, |vol.chains[k]| + Free()) >= |vol.files[Name(vol.M().dir[k])].data| + Room(vol.geo, Free())
    {
      hide MetaOf, Volume.L, Volume.Valid, Crash, FreeSet, Room, Size, Name, Sound, IsChain, IsFile, First, FileBytes, Fits;
      var g, cl, size := vol.geo, vol.chains[k], Size(vol.M().dir[k]);
      ChainOf(g, vol.M(), vol.chains, -1, k);
      RoomWaste(g, |cl|, Free(), size);
      FitsBounds(g, |cl|, size);
      assert vol.files[Name(vol.M().dir[k])].data == FileData(g, vol.L(), cl, size);
      assert AllData(g, cl) && Holds(g, vol.L());
      assert |FileData(g, vol.L(), cl, size)| == size;
    }

    /** What a file and the free clusters have room for.  */
    lemma RoomsFor(n: seq<byte>)
      requires Inv() && cur == Closed
      ensures n in vol.files ==> RoomFor(n) >= |vol.files[n].data| + Room(vol.geo, Free())
      ensures n !in vol.files ==> RoomFor(n) == Room(vol.geo, Free())
    {
      hide MetaOf, Volume.L, Volume.Valid, Consistent, Crash, FreeSet, Room, Name, FileData, Size, Locked;
      assert n in vol.files ==> NameTaken(vol.M(), vol.chains, n);
      if SlotOf(n) >= 0 {
        RoomOfFile(SlotOf(n));
        RoomIsFor(SlotOf(n), n);
      } else {
        RoomIsNew(n);
      }
      hide Inv, Shows;
    }

    // ----------------------------------------------------- the root directory

    /** The slots before `at` have been listed; what is in the buffer is the next
        ones.  */
    ghost predicate Lists(at: int)
      reads this, buf, vol
    {
      && ListsAt(vol.geo, at, floc, frem, bufat, bufend, fclust, filesize)
      && (bufat < bufend ==> 0 <= vol.geo.SlotBlk(at) < |vol.disk| && buf[..] == vol.disk[vol.geo.SlotBlk(at)])
    }

    lemma ClosedFacts()
      requires Inv() && cur == Closed
      ensures vol.Valid() && !vol.dirty && vol.geo.Wf() && vol.geo.ClusterSize() > 0 && Crash(vol.geo, vol.trail, vol.exposed)
      ensures buf != vol.buf2 && buf.Length == SECTORSIZE
    {
      ClusterSectors(vol.geo);
      hide MetaOf, Volume.L, Consistent, Shows, Crash, Geometry.ClusterSize;
    }

    /** What opendir sets up: the listing of the root directory, if that does not start
        before the data region as the code counts it, and else a block 2^32 bytes
        behind it.  */
    ghost predicate Opened()
      reads this, buf, vol
    {
      var off := vol.geo.rootdir - SECTORSIZE * vol.geo.dataregion;
      && (0 <= off < 0x8000_0000 ==> Lists(0))
      && (-0x1_0000_0000 <= off < 0x1_0000_0000 && vol.geo.ClusterSize() <= 0x8000_0000 ==>
            && (Lists(0) <==> 0 <= off)
            && (off < 0 ==> bufat == bufend && floc < filesize && DataBlock() == vol.geo.SlotBlk(0) + 0x80_0000))
    }

    lemma OpenedIs()
      requires vol.geo.Wf() && bufat == bufend == 0
      requires var off := vol.geo.rootdir - SECTORSIZE * vol.geo.dataregion;
               && fclust == off % 0x1_0000_0000 / vol.geo.ClusterSize()
               && floc == Long((off - fclust * vol.geo.ClusterSize()) % 0x1_0000_0000)
               && frem == vol.geo.rootdirend - vol.geo.rootdir && filesize == floc + frem
      ensures Opened()
    {
      ClusterSectors(vol.geo);
      assert frem > 0;
      hide ListsAt, Geometry.Wf, Geometry.ClusterSize, Geometry.Spc, Long;
      var off, cs := vol.geo.rootdir - SECTORSIZE * vol.geo.dataregion, vol.geo.ClusterSize();
      if 0 <= off {
        ListOpen(vol.geo);
        if off < 0x8000_0000 || (off < 0x1_0000_0000 && cs <= 0x8000_0000) {
          OpenSigned(off, cs);
        }
      } else if -0x1_0000_0000 <= off && cs <= 0x8000_0000 {
        ListAway(vol.geo);
        hide Geometry.SlotBlk;
      }
    }

    /** Makes the root directory the thing to read.  The shift by which the first
        cluster is computed is a logical one.  */
    method ListFromStart()
      requires Inv() && cur == Closed && bufat == bufend == 0
      modifies this`fclust, this`floc, this`frem, this`filesize
      ensures Inv() && Opened()
    {
      hide MetaOf, Volume.L, Volume.Valid, Consistent, Shows, Crash, Opened, Inv, Geometry.Wf, Geometry.ClusterSize;
      ClosedFacts();
      var off := vol.geo.rootdir - SECTORSIZE * vol.geo.dataregion;
      fclust := off % 0x1_0000_0000 / vol.geo.ClusterSize();
      floc := Long((off - fclust * vol.geo.ClusterSize()) % 0x1_0000_0000);
      frem := vol.geo.rootdirend - vol.geo.rootdir;
      filesize := floc + frem;
      OpenedIs();
      ClosedStays();
    }

    /** Closes the open file and sets up the listing of the root directory.  */
    method OpenDir() returns (r: Result<int>)
      requires Inv()
      modifies this, vol`disk, vol`trail, vol`dirty, vol`lastread, vol`chains, vol.buf2
      ensures Inv() && cur == Closed && r == Ok(0) && vol.exposed == old(vol.exposed) && vol.files == old(vol.files)
      ensures Clusters() == old(Clusters())
      ensures 0 <= vol.geo.rootdir - SECTORSIZE * vol.geo.dataregion < 0x8000_0000 ==> Lists(0)
      ensures Opened()
      ensures !old(cur.Writing?) ==> unchanged(vol) && unchanged(vol.buf2)
    {
      hide MetaOf, Volume.L, Consistent, Shows, Crash, Pool, Lists, Inv, Volume.Valid;
      var c := PClose();
      ClosedFacts();
      ListFromStart();
      return Ok(0);
    }

    /** An object without an open file is not touched by others that only read.  */
    twostate lemma ClosedStays()
      requires old(Inv()) && old(cur) == Closed && cur == Closed && direntry == old(direntry) && OnlyRead()
      requires Crash(vol.geo, vol.trail, vol.exposed)
      ensures Inv()
    {
      hide MetaOf, Volume.L, Volume.Valid, FileData, Consistent, Shows, Crash;
    }

    /** Nor is its place in the directory.  */
    twostate lemma ListStays(at: int)
      requires old(Inv()) && old(cur) == Closed && old(Lists(at)) && OnlyRead() && unchanged(this) && unchanged(buf)
      ensures Lists(at)
    {
      hide MetaOf, Volume.L, FileData, Consistent, Shows, Crash, ListsAt;
    }

    /** What a listing starts from.  */
    lemma ListSetting(at: int)
      requires Inv() && cur == Closed && Lists(at)
      ensures vol.Valid() && vol.geo.Wf() && !vol.dirty && vol.disk == vol.L() && direntry == 0
      ensures buf.Length == SECTORSIZE && buf != vol.buf2 && Crash(vol.geo, vol.trail, vol.exposed)
      ensures 0 <= at <= |vol.M().dir| == vol.geo.Slots() && bufat <= bufend
      ensures at < vol.geo.Slots() ==> 0 <= vol.geo.SlotBlk(at) < |vol.disk|
      ensures bufat == bufend ==> (floc < filesize <==> at < vol.geo.Slots())
    {
      hide MetaOf, Volume.L, FileData, Consistent, Shows, Crash, Geometry.Spc, ListStart;
      StartSectors(vol.geo);
      if at < vol.geo.Slots() {
        SlotPlace(vol.geo, at);
        MetaOnDisk(vol.geo, vol.geo.SlotBlk(at));
      }
      hide Geometry.Wf;
    }

    /** The part of nextfile that refills the buffer.  */
    method ListRefill(ghost at: int) returns (r: Result<int>)
      requires Inv() && cur == Closed && Lists(at) && bufat >= bufend
      modifies this`fatptr, this`writelink, this`fclust, this`frem, this`floc, this`bufat, this`bufend, buf
      modifies vol`disk, vol`trail, vol`dirty, vol`lastread, vol.buf2
      ensures Inv() && OnlyRead() && Lists(at) && r.Ok?
      ensures if at == vol.geo.Slots() then r == Ok(-1) else r.value >= 0 && bufat < bufend
    {
      hide MetaOf, Volume.L, Volume.Valid, Consistent, Shows, Crash, Geometry.Spc, ListStart, ListsAt, Inv;
      ListSetting(at);
      if floc < filesize {
        ListFill(vol.geo, at, floc, frem, bufat, fclust, filesize);
      }
      r := PFillBuf();
      if r.value < 0 {
        ClosedStays();
        return;
      }
      if floc / SECTORSIZE % vol.geo.Spc() == 0 {
        fclust := fclust + 1;
      }
      ClosedStays();
    }

    /** The slot that the buffer shows next.  */
    lemma ListSees(at: int)
      requires Inv() && cur == Closed && Lists(at) && bufat < bufend
      ensures 0 <= at < |vol.M().dir| && 0 <= bufat <= SECTORSIZE - DIRSIZE && buf.Length == SECTORSIZE
      ensures buf[bufat..bufat + DIRSIZE] == vol.M().dir[at]
      ensures ListsAt(vol.geo, at + 1, floc, frem, bufat + DIRSIZE, bufend, fclust, filesize)
      ensures bufat + DIRSIZE < bufend ==> vol.geo.SlotBlk(at + 1) == vol.geo.SlotBlk(at)
    {
      ListSetting(at);
      ListStep(vol.geo, at, floc, frem, bufat, bufend, fclust, filesize);
      hide Volume.L, Volume.Valid, FileData, Consistent, Shows, Crash, Geometry.Spc, ListStart, ListsAt, Geometry.Wf, Inv;
      assert vol.M().dir[at] == DirSlot(vol.geo, vol.L(), at);
    }

    /** One round of the loop of nextfile: looks at the next slot and goes past it
        unless it is the end.  */
    method ListLook(fbuf: array<byte>, p: nat, ghost at: int) returns (done: bool, r: Result<int>)
      requires Inv() && cur == Closed && Lists(at) && bufat < bufend
      requires p + 13 <= fbuf.Length && fbuf != buf && fbuf != vol.buf2
      modifies this`bufat, fbuf
      ensures Inv() && 0 <= at < |vol.M().dir|
      ensures var e := vol.M().dir[at];
              if e[0] == 0 then done && r == Ok(-1) && Lists(at) && fbuf[..] == old(fbuf[..])
              else
                && Lists(at + 1) && (done <==> Listed(e)) && (done ==> r == Ok(0))
                && (if done then StringPut(old(fbuf[..]), fbuf[..], p, Printed(Name(e))) else fbuf[..] == old(fbuf[..]))
    {
      hide MetaOf, Volume.L, Volume.Valid, Consistent, Shows, Crash, ListsAt, Printed;
      ListSees(at);
      ghost var e := vol.M().dir[at];
      forall i | 0 <= i < DIRSIZE
        ensures buf[bufat + i] == e[i]
      {
        assert buf[bufat..bufat + DIRSIZE][i] == buf[bufat + i];
      }
      var here := bufat;
      if buf[here] == 0 {
        return true, Ok(-1);
      }
      bufat := bufat + DIRSIZE;
      if buf[here] != 0xe5 && buf[here + 0x0b] / 8 % 4 == 0 {
        assert buf[here..here + 11] == Name(e);
        PrintName(buf[here..here + 11], fbuf, p);
        return true, Ok(0);
      }
      return false, Ok(0);
    }

    /** Prints the name of the next file of the root directory at place p of `fbuf`;
        -1 when there is none.  */
    method NextFile(fbuf: array<byte>, p: nat, ghost at0: int) returns (r: Result<int>, ghost at: int)
      requires Inv() && cur == Closed && Lists(at0) && p + 13 <= fbuf.Length && fbuf != buf && fbuf != vol.buf2
      modifies this`fatptr, this`writelink, this`fclust, this`frem, this`floc, this`bufat, this`bufend, buf, fbuf
      modifies vol`disk, vol`trail, vol`dirty, vol`lastread, vol.buf2
      ensures Inv() && cur == Closed && OnlyRead() && Lists(at) && 0 <= at0 <= |vol.M().dir|
      ensures var k := NextSlot(vol.M().dir, at0);
              if Ends(vol.M().dir, k) then at == k && r == Ok(-1) && fbuf[..] == old(fbuf[..])
              else at == k + 1 && r == Ok(0) && StringPut(old(fbuf[..]), fbuf[..], p, Printed(Name(vol.M().dir[k])))
    {
      hide MetaOf, Volume.L, Volume.Valid, Inv, Lists, Printed, StringPut, Special, Name;
      ListSetting(at0);
      at := at0;
      while true
        invariant Inv() && cur == Closed && OnlyRead() && Lists(at) && 0 <= at0 <= at <= |vol.M().dir| == vol.geo.Slots()
        invariant NextSlot(vol.M().dir, at0) == NextSlot(vol.M().dir, at) && fbuf[..] == old(fbuf[..])
        decreases vol.geo.Slots() - at
      {
        ListSetting(at);
        if bufat >= bufend {
          r := ListRefill(at);
          if r.value < 0 {
            return;
          }
        }
        var done;
        done, r := ListLook(fbuf, p, at);
        if done {
          if r.value == 0 {
            at := at + 1;
          }
          return;
        }
        at := at + 1;
      }
    }
  }
}
