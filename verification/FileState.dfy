/** How the variables of an open file hang together, whether it is read or written,
    and what each step of fsrw does to them and to what the volume shows.  */
module FileState {
  import opened Bytes
  import opened Arith
  import opened Layout
  import opened Fat
  import opened Content
  import opened Updates
  import opened Cache
  import opened Names

  /** What a call comes to: a value, or an abort with a negative code.  */
  datatype Result<+T> = Ok(value: T) | Abort(code: int) {
    predicate IsFailure() { Abort? }
    function PropagateFailure<U>(): Result<U>
      requires Abort?
    {
      Abort(code)
    }
    function Extract(): T
      requires Ok?
    {
      value
    }
  }

  /** What an object is used for.  The slot is that of the open file; a reader is in
      the k-th cluster of its chain.  */
  datatype Mode = Closed | Reading(slot: int, k: int) | Writing(slot: int)

  /** How the variables of a file open for writing hang together: `floc` is where
      the buffer goes, `frem` what is left of the last cluster from there, and
      `writelink` the address of that cluster's FAT entry.  There is room for
      every byte accepted so far.  */
  ghost predicate WriterAt(g: Geometry, fat: seq<int>, cl: seq<int>,
                           floc: int, frem: int, bufat: int, fclust: int, writelink: int)
    requires |fat| == g.totclusters
  {
    && 0 <= floc && floc % SECTORSIZE == 0 && 0 <= bufat <= SECTORSIZE && floc + bufat < 0x8000_0000
    && 0 <= frem <= g.ClusterSize() && floc + frem == Room(g, |cl|)
    && (frem == g.ClusterSize() ==> bufat > 0 || floc == 0)
    && (if cl == [] then fclust == 0 && writelink == 0
        else fclust == cl[|cl| - 1] && writelink == g.FatAddr(cl[|cl| - 1]))
    && floc + bufat <= Room(g, |cl| + |FreeSet(g, fat)|)
  }

  /** How the variables of a file open for reading hang together: `floc` is the end
      of what has been read into the buffer, `fclust` the cluster that holds the
      byte before it, and `frem` what is left of cluster and file from there.  */
  ghost predicate ReaderAt(g: Geometry, cl: seq<int>, size: int, k: int,
                           floc: int, frem: int, bufat: int, bufend: int, fclust: int)
  {
    && 0 <= floc <= size <= Room(g, |cl|) && (floc % SECTORSIZE == 0 || floc == size)
    && 0 <= bufat <= bufend <= SECTORSIZE && bufend <= floc
    && (floc - bufend) % SECTORSIZE == 0 && (bufend == 0 ==> floc == 0)
    && frem == Min(Room(g, k + 1), size) - floc
    && 0 <= k && (size > 0 ==> k < |cl| && fclust == cl[k])
    && (if k == 0 then 0 <= floc else Room(g, k) < floc) && floc <= Room(g, k + 1)
  }

  /** The buffer shows the bytes before `floc`.  */
  ghost predicate Buffered(data: seq<byte>, b: seq<byte>, floc: int, bufend: int) {
    0 <= bufend <= |b| && bufend <= floc <= |data| && b[..bufend] == data[floc - bufend..floc]
  }

  /** Where the next sector of a file open for reading is found.  */
  lemma ReaderStep(g: Geometry, fat: seq<int>, first: int, cl: seq<int>, size: int, k: int,
                   floc: int, frem: int, bufat: int, bufend: int, fclust: int) returns (k': int, fc: int)
    requires g.Wf() && |fat| == g.totclusters && IsChain(g, fat, first, cl) && AllData(g, cl)
    requires ReaderAt(g, cl, size, k, floc, frem, bufat, bufend, fclust) && floc < size
    ensures 0 <= k' < |cl|
    ensures frem == 0 ==> 0 <= fclust < g.totclusters
    ensures fc == (if frem == 0 then fat[fclust] else fclust) == cl[k'] && g.IsData(fc)
    ensures Room(g, k') <= floc < Room(g, k' + 1) && floc % SECTORSIZE == 0 && size <= Room(g, |cl|)
    ensures var n, frem' := Min(SECTORSIZE, size - floc), if frem == 0 then Min(g.ClusterSize(), size - floc) else frem;
            ReaderAt(g, cl, size, k', floc + n, frem' - n, 0, n, fc)
  {
    RoomSectors(g, k + 1);
    ChainStep(g, fat, first, cl, k);
    hide Geometry.Wf, Geometry.Spc, IsChain;
    k' := if frem == 0 then k + 1 else k;
    if frem == 0 && k' >= |cl| {
      RoomMono(g, |cl|, k');
    }
    fc := cl[k'];
    assert g.IsData(fc);
    RoomSectors(g, k' + 1);
    assert Room(g, k' + 1) == Room(g, k') + g.ClusterSize();
    ReaderArith(g.ClusterSize(), Room(g, k'), size, floc, frem);
    hide Room, Geometry.ClusterSize;
  }

  lemma ReaderArith(cs: int, r: int, size: int, floc: int, frem: int)
    requires floc % SECTORSIZE == 0 && (r + cs) % SECTORSIZE == 0 && floc < size && 0 <= r <= floc
    requires if frem == 0 then floc == r && cs > 0 else frem == Min(r + cs, size) - floc && frem > 0
    ensures floc < r + cs
    ensures var n, frem' := Min(SECTORSIZE, size - floc), if frem == 0 then Min(cs, size - floc) else frem;
            && 0 < n && floc + n <= r + cs && floc + n <= size && frem' - n == Min(r + cs, size) - (floc + n)
            && ((floc + n) % SECTORSIZE == 0 || floc + n == size)
  {
  }

  /** What reading that sector puts into the buffer.  */
  lemma ReaderBuffer(g: Geometry, d: Disk, cl: seq<int>, size: int, k: int, floc: int, fc: int)
    requires Holds(g, d) && AllData(g, cl) && 0 <= k < |cl| && fc == cl[k]
    requires Room(g, k) <= floc < Room(g, k + 1) && 0 <= floc < size <= Room(g, |cl|) && floc % SECTORSIZE == 0
    ensures var blk := fc * g.Spc() + g.dataregion + floc / SECTORSIZE % g.Spc();
            var n := Min(SECTORSIZE, size - floc);
            && 0 <= blk < |d|
            && Buffered(FileData(g, d, cl, size), d[blk], floc + n, n)
  {
    hide Geometry.Wf, Room;
    var t, n := floc / SECTORSIZE, Min(SECTORSIZE, size - floc);
    SectorAt(g, k, t);
    assert g.IsData(fc);
    DivBounds(t, g.Spc());
    RegionsApart(g, fc, t % g.Spc());
    BytesGet(g, d, cl, size, t, n);
  }

  /** Without a file open the variables are those of a reader of nothing.  */
  lemma NoFile(g: Geometry, d: Disk, b: seq<byte>, fclust: int)
    ensures FileData(g, d, [], 0) == [] && ReaderAt(g, [], 0, 0, 0, 0, 0, 0, fclust) && Buffered([], b, 0, 0)
  {
  }

  /** The buffer of a reader starts at a sector, and ends with it or the file.  */
  lemma ReaderWhole(g: Geometry, cl: seq<int>, size: int, k: int, floc: int, frem: int, bufat: int, bufend: int, fclust: int)
    requires ReaderAt(g, cl, size, k, floc, frem, bufat, bufend, fclust)
    ensures (floc - bufend) % SECTORSIZE == 0 && 0 <= bufend <= floc
    ensures bufend > 0 ==> bufend == Min(SECTORSIZE, size - (floc - bufend))
  {
    hide Room;
  }

  lemma ReaderBounds(g: Geometry, cl: seq<int>, size: int, k: int, floc: int, frem: int, bufat: int, bufend: int, fclust: int)
    requires ReaderAt(g, cl, size, k, floc, frem, bufat, bufend, fclust)
    ensures 0 <= floc <= size && 0 <= bufat <= bufend <= SECTORSIZE && bufend <= floc
  {
    hide Room;
  }

  lemma ChainOf(g: Geometry, m: Meta, ch: map<int, seq<int>>, w: int, slot: int)
    requires Consistent(g, m, ch, w) && slot in ch
    ensures |m.fat| == g.totclusters && 0 <= slot < |m.dir| && IsChain(g, m.fat, First(g, m.dir[slot]), ch[slot])
    ensures slot != w ==> Fits(g, |ch[slot]|, Size(m.dir[slot]))
    ensures AllData(g, ch[slot])
  {
    hide Sound, Fits, First, IsFile, Name;
  }

  lemma ReaderTake(g: Geometry, cl: seq<int>, size: int, k: int, floc: int, frem: int, bufat: int, bufend: int, fclust: int, t: int)
    requires ReaderAt(g, cl, size, k, floc, frem, bufat, bufend, fclust) && 0 <= t <= bufend - bufat
    ensures ReaderAt(g, cl, size, k, floc, frem, bufat + t, bufend, fclust)
  {
    hide Room;
  }

  lemma BufferedSlice(data: seq<byte>, b: seq<byte>, floc: int, bufend: int, bufat: int, t: int)
    requires Buffered(data, b, floc, bufend) && 0 <= bufat && 0 <= t && bufat + t <= bufend
    ensures 0 <= floc - bufend + bufat && floc - bufend + bufat + t <= |data| && bufat + t <= |b|
    ensures b[bufat..bufat + t] == data[floc - bufend + bufat..floc - bufend + bufat + t]
  {
    var from := floc - bufend;
    var x, y := b[bufat..bufat + t], data[from + bufat..from + bufat + t];
    forall i | 0 <= i < t
      ensures x[i] == y[i]
    {
      assert b[..bufend][bufat + i] == data[from..floc][bufat + i];
    }
  }

  lemma SpliceParts(s: seq<byte>, s': seq<byte>, at: int, t: int, x: seq<byte>)
    requires 0 <= at && 0 <= t == |x| && at + t <= |s| && s' == s[..at] + x + s[at + t..]
    ensures |s'| == |s| && s'[at..at + t] == x && s'[..at] == s[..at] && s'[at + t..] == s[at + t..]
  {
  }

  lemma SpliceMore(s: seq<byte>, s': seq<byte>, at0: int, at: int, t: int)
    requires 0 <= at0 <= at && 0 <= t && at + t <= |s| == |s'| && s'[..at] == s[..at] && s'[at + t..] == s[at + t..]
    ensures s'[at0..at + t] == s[at0..at] + s'[at..at + t] && s'[..at0] == s[..at0]
    ensures s'[at + t..] == s[at..][t..]
  {
    assert s'[at0..at] == s'[..at][at0..] == s[at0..at];
    assert s'[..at0] == s'[..at][..at0];
  }

  lemma TextMore(s: seq<byte>, a: int, b: int, c: int)
    requires 0 <= a <= b <= c <= |s|
    ensures s[a..b] + s[b..c] == s[a..c]
  {
  }

  lemma SlotMatch(b: seq<byte>, s: int, e: Slot, n: seq<byte>)
    requires 0 <= s && s + 32 <= |b| && b[s..s + 32] == e
    ensures Match(e, n) <==> b[s..s + 11] == n && b[s + 0x0b] / 8 % 4 == 0
  {
    assert Name(e) == b[s..s + 11];
    assert e[11] == b[s + 11];
  }

  /** A file just opened for reading.  */
  lemma ReaderStart(g: Geometry, fat: seq<int>, first: int, cl: seq<int>, size: int)
    requires |fat| == g.totclusters && IsChain(g, fat, first, cl) && Fits(g, |cl|, size)
    ensures ReaderAt(g, cl, size, 0, 0, Min(g.ClusterSize(), size), 0, 0, first)
    ensures cl != [] ==> first == cl[0]
  {
    assert Room(g, 0) == 0 && Room(g, 1) == g.ClusterSize();
  }

  lemma SlotFields(g: Geometry, b: seq<byte>, s: int, e: Slot)
    requires 0 <= s && s + 32 <= |b| && b[s..s + 32] == e
    ensures Le16(b, s + 0x1a) == Le16(e, 0x1a) && Le16(b, s + 0x14) == Le16(e, 0x14)
    ensures Le32(b, s + 0x1c) == Le32(e, 0x1c) && b[s + 11] == e[11]
  {
    assert forall i :: 0 <= i < 32 ==> e[i] == b[s + i];
  }

  lemma CrashPrefix(g: Geometry, t: seq<Disk>, t': seq<Disk>, exposed: bool)
    requires Crash(g, t, exposed) && Prefix(t, t') && AllSound(g, t', |t|)
    ensures Crash(g, t', exposed)
  {
    hide Sound, MetaOf;
    assert forall i :: 0 <= i < |t| ==> t'[i] == t[i] by {
      assert forall i :: 0 <= i < |t| ==> t'[..|t|][i] == t'[i];
    }
    if AllSound(g, t', 0) {
      assert AllSound(g, t, 0);
    }
  }

  /** Without the file in slot i the others show what they showed.  */
  lemma DeleteShows(g: Geometry, d: Disk, m: Meta, ch: map<int, seq<int>>, d': Disk, m': Meta, i: int, files: Files)
    requires Consistent(g, m, ch, -1) && i in ch && 0 <= i < |m.dir| && Shows(g, d, m, ch, -1, [], files)
    requires Holds(g, d) && Holds(g, d') && SameData(g, d, d')
    requires |m'.dir| == |m.dir| && forall j :: 0 <= j < |m.dir| && j != i ==> m'.dir[j] == m.dir[j]
    ensures Shows(g, d', m', ch - {i}, -1, [], files - {Name(m.dir[i])})
  {
    hide Sound, IsChain, Fits, FileData, Size, Locked, Name, First, IsFile;
    var ch', files' := ch - {i}, files - {Name(m.dir[i])};
    forall j | j in ch'
      ensures 0 <= j < |m'.dir| && Name(m'.dir[j]) in files'
      ensures files'[Name(m'.dir[j])] == File(Locked(m'.dir[j]), FileData(g, d', ch'[j], Size(m'.dir[j])))
    {
      assert j in ch;
      DataSame(g, d, d', ch[j], Size(m.dir[j]));
    }
    forall n | n in files'
      ensures NameTaken(m', ch', n)
    {
      assert NameTaken(m, ch, n);
      var j :| j in ch && 0 <= j < |m.dir| && Name(m.dir[j]) == n;
      assert j in ch';
    }
  }

  /** The chain of a file as the code that frees it sees it.  */
  lemma ChainFirst(g: Geometry, m: Meta, ch: map<int, seq<int>>, i: int)
    requires g.Wf() && Consistent(g, m, ch, -1) && i in ch
    ensures 0 <= i < |m.dir| && |m.fat| == g.totclusters
    ensures if ch[i] == [] then First(g, m.dir[i]) == 0 || First(g, m.dir[i]) >= g.EndOfChain()
            else IsWalk(g, m.fat, First(g, m.dir[i]), ch[i]) && First(g, m.dir[i]) == ch[i][0] && ch[i][0] >= 2
  {
    ChainOf(g, m, ch, -1, i);
    if ch[i] != [] {
      ChainWalk(g, m, ch, -1, i);
    }
    hide Consistent, Sound, First, IsWalk;
  }

  lemma NoBytes(g: Geometry, d: Disk)
    ensures FileData(g, d, [], 0) == []
  {
  }

  /** Stepping along a chain whose clusters the file needs all.  */
  lemma AppendStep(g: Geometry, fat: seq<int>, first: int, cl: seq<int>, size: int, k: int)
    requires g.Wf() && |fat| == g.totclusters && IsChain(g, fat, first, cl) && 0 <= k < |cl|
    requires 0 <= size <= Room(g, |cl|) && size - Room(g, k) > g.ClusterSize()
    ensures k + 1 < |cl| && 2 <= cl[k] < g.totclusters && fat[cl[k]] == cl[k + 1] && 2 <= cl[k + 1] < g.totclusters
    ensures Room(g, k + 1) == Room(g, k) + g.ClusterSize() < size
  {
    if k + 1 >= |cl| {
      RoomMono(g, |cl|, k + 1);
    }
    ChainStep(g, fat, first, cl, k);
    hide Geometry.Wf, Geometry.Spc;
  }

  /** The chain is at its last cluster once no more than a cluster is left.  */
  lemma AppendLast(g: Geometry, cl: seq<int>, size: int, k: int)
    requires Fits(g, |cl|, size) && 0 <= k && (if cl == [] then k == 0 else k < |cl|)
    requires size - Room(g, k) <= g.ClusterSize() && (k > 0 ==> Room(g, k) < size)
    ensures cl != [] ==> k == |cl| - 1
  {
    hide Geometry.Spc;
    if cl != [] && k < |cl| - 1 {
      RoomMono(g, k + 1, |cl| - 1);
      assert Room(g, |cl|) == Room(g, |cl| - 1) + g.ClusterSize();
    }
  }

  lemma AppendArith(cs: int, r: int, size: int)
    requires cs % SECTORSIZE == 0 && cs >= SECTORSIZE && r % SECTORSIZE == 0 && 0 <= r && 0 <= size - r <= cs
    ensures var left := size - r;
            var bufat, floc := left % SECTORSIZE, size - size % SECTORSIZE;
            && bufat == size % SECTORSIZE && floc % SECTORSIZE == 0 && floc + bufat == size && 0 <= floc
            && (if bufat == 0 && left == cs then floc == r + cs else r <= floc < r + cs)
  {
    var q, p := r / SECTORSIZE, cs / SECTORSIZE;
    assert r == SECTORSIZE * q && cs == SECTORSIZE * p;
  }

  /** Where append takes up writing: the invariant of the writer, for sizes of 0
      and multiples of the cluster size too.  */
  lemma AppendAt(g: Geometry, fat: seq<int>, cl: seq<int>, size: int, k: int, fclust: int, writelink: int)
    requires |fat| == g.totclusters && Fits(g, |cl|, size) && size < 0x8000_0000
    requires if cl == [] then k == 0 && fclust == 0 && writelink == 0
             else k == |cl| - 1 && 2 <= fclust == cl[k] && writelink == g.FatAddr(fclust)
    requires 0 <= size - Room(g, k) <= g.ClusterSize() && (k > 0 ==> Room(g, k) < size)
    ensures var left := size - Room(g, k);
            var bufat, floc := left % SECTORSIZE, size - size % SECTORSIZE;
            && bufat == size % SECTORSIZE
            && (if bufat == 0 && (fclust < 2 || left == g.ClusterSize()) then WriterAt(g, fat, cl, floc, 0, bufat, fclust, writelink)
                else
                  && WriterAt(g, fat, cl, floc, g.ClusterSize() - floc % g.ClusterSize(), bufat, fclust, writelink)
                  && cl != [] && Room(g, k) <= floc < Room(g, k + 1))
  {
    var left := size - Room(g, k);
    var bufat, floc := left % SECTORSIZE, size - size % SECTORSIZE;
    RoomSectors(g, k);
    ClusterSectors(g);
    AppendArith(g.ClusterSize(), Room(g, k), size);
    RoomMono(g, |cl|, |cl| + |FreeSet(g, fat)|);
    assert cl != [] ==> Room(g, |cl|) == Room(g, k) + g.ClusterSize();
    hide FreeSet, Room, Geometry.ClusterSize, Geometry.FatAddr;
    if cl != [] && (bufat > 0 || left < g.ClusterSize()) {
      RoomTimes(g, k, floc - Room(g, k));
    }
  }

  /** The bytes of a file: whole sectors, then what is taken of the last.  */
  lemma AppendBytes(g: Geometry, d: Disk, cl: seq<int>, size: int, k: int)
    requires Holds(g, d) && AllData(g, cl) && 0 <= k < |cl|
    requires Room(g, k) <= size - size % SECTORSIZE < Room(g, k + 1) && 0 <= size <= Room(g, |cl|)
    ensures var floc := size - size % SECTORSIZE;
            var blk := cl[k] * g.Spc() + g.dataregion + floc / SECTORSIZE % g.Spc();
            && 0 <= blk < |d|
            && FileData(g, d, cl, size) == FileData(g, d, cl, floc) + d[blk][..size % SECTORSIZE]
  {
    var floc, t, n := size - size % SECTORSIZE, size / SECTORSIZE, size % SECTORSIZE;
    RoomMono(g, k + 1, |cl|);
    SectorAt(g, k, t);
    assert g.IsData(cl[k]);
    DivBounds(t, g.Spc());
    RegionsApart(g, cl[k], t % g.Spc());
    BytesGet(g, d, cl, size, t, n);
    BytesPrefix(g, d, cl, size, floc);
    assert FileBytes(g, d, cl, size) == FileBytes(g, d, cl, size)[..floc] + FileBytes(g, d, cl, size)[floc..floc + n];
  }

  /** What is in the buffer of a writer completes the bytes on the disk.  */
  lemma AppendText(g: Geometry, d: Disk, cl: seq<int>, size: int, k: int, b: seq<byte>)
    requires Holds(g, d) && AllData(g, cl) && 0 <= size <= Room(g, |cl|) && |b| == SECTORSIZE
    requires var floc := size - size % SECTORSIZE;
             size % SECTORSIZE != 0 ==>
               && 0 <= k < |cl| && Room(g, k) <= floc < Room(g, k + 1)
               && var blk := cl[k] * g.Spc() + g.dataregion + floc / SECTORSIZE % g.Spc();
               0 <= blk < |d| && b == d[blk]
    ensures FileData(g, d, cl, size - size % SECTORSIZE) + b[..size % SECTORSIZE] == FileData(g, d, cl, size)
  {
    hide FileData, Geometry.Wf;
    if size % SECTORSIZE != 0 {
      AppendBytes(g, d, cl, size, k);
    }
  }

  lemma ClusterSectors(g: Geometry)
    ensures g.ClusterSize() % SECTORSIZE == 0 && g.ClusterSize() >= SECTORSIZE
  {
  }

  lemma SectorRest(floc: int, n: int)
    requires floc % SECTORSIZE == 0
    ensures (floc + n) % SECTORSIZE == n % SECTORSIZE
  {
  }

  lemma RoomTimes(g: Geometry, k: nat, r: int)
    requires 0 <= r < g.ClusterSize()
    ensures (Room(g, k) + r) % g.ClusterSize() == r
  {
    RoomIs(g, k);
    DivMod(k, g.ClusterSize(), r);
  }

  lemma SizeBound(e: Slot)
    ensures Size(e) < 0x8000_0000
  {
  }

  /** Opening a file for writing shows the bytes it has.  */
  lemma OpenShows(g: Geometry, d: Disk, m: Meta, ch: map<int, seq<int>>, slot: int, files: Files)
    requires Shows(g, d, m, ch, -1, [], files) && slot in ch && 0 <= slot < |m.dir|
    ensures Shows(g, d, m, ch, slot, FileData(g, d, ch[slot], Size(m.dir[slot])), files)
  {
    hide FileData, Name, Size, Locked;
  }

  /** A new file shows no bytes, the others what they showed.  */
  lemma CreateShows(g: Geometry, d: Disk, m: Meta, ch: map<int, seq<int>>, d': Disk, m': Meta, f: int, files: Files)
    requires Holds(g, d) && Holds(g, d') && SameData(g, d, d') && Shows(g, d, m, ch, -1, [], files)
    requires |m'.dir| == |m.dir| && 0 <= f < |m.dir| && f !in ch
    requires forall i :: i in ch ==> 0 <= i < |m.dir| && m'.dir[i] == m.dir[i]
    requires !Locked(m'.dir[f])
    requires forall i :: i in ch ==> 0 <= i < |m.dir| && Name(m.dir[i]) != Name(m'.dir[f])
    ensures Name(m'.dir[f]) !in files
    ensures Shows(g, d', m', ch[f := []], f, [], files[Name(m'.dir[f]) := File(false, [])])
  {
    hide FileData, Size, Locked, Name;
    var n, ch' := Name(m'.dir[f]), ch[f := []];
    assert n in files ==> NameTaken(m, ch, n);
    var files' := files[n := File(false, [])];
    forall i | i in ch'
      ensures 0 <= i < |m'.dir| && Name(m'.dir[i]) in files'
      ensures files'[Name(m'.dir[i])] == File(Locked(m'.dir[i]), if i == f then [] else FileData(g, d', ch'[i], Size(m'.dir[i])))
    {
      if i != f {
        assert i in ch;
        DataSame(g, d, d', ch[i], Size(m.dir[i]));
      }
    }
    forall x | x in files'
      ensures NameTaken(m', ch', x)
    {
      if x == n {
        assert f in ch';
      } else {
        assert NameTaken(m, ch, x);
        var i :| i in ch && 0 <= i < |m.dir| && Name(m.dir[i]) == x;
        assert i in ch';
      }
    }
  }

  /** A file that the search passed by is not there.  */
  lemma SearchedNames(dir: seq<Slot>, k: int, n: seq<byte>, f: int)
    requires Searched(dir, k, n, f) && (k < |dir| ==> dir[k][0] == 0)
    ensures forall i :: IsFile(dir, i) ==> Name(dir[i]) != n
  {
    hide Name, Special;
    forall i | IsFile(dir, i)
      ensures Name(dir[i]) != n
    {
      assert i < k;
      assert !Match(dir[i], n);
    }
  }

  /** The images of a creation: the disk is unsound after one of them exactly if it
      was before or the new slot makes harmful stale slots live.  */
  lemma NewEntryCrash(g: Geometry, m: Meta, m': Meta, t: seq<Disk>, mid: seq<Disk>, t': seq<Disk>, d: Disk,
                      f: int, e: Slot, exposed: bool)
    requires Sound(g, m) && Crash(g, t, exposed) && m' == m.(dir := m'.dir) && Created(m.dir, m'.dir, f, e)
    requires e[0] != 0 && e[0] != 0xe5 && First(g, e) == 0
    requires mid == t || Grown(g, t, mid, m.(dir := m.dir[f := e]))
    requires m.dir[f][0] == 0xe5 || f % 16 != 15 ==> mid == t
    requires Exposes(m.dir, f) ==> LastShows(g, mid, m.(dir := m.dir[f := e]))
    requires Grown(g, mid, t', m')
    requires t' != [] && t'[|t'| - 1] == d && Holds(g, d) && MetaOf(g, d) == m'
    ensures Crash(g, t', exposed || HalfUnsafe(g, m, f))
  {
    hide MetaOf, Crash, Sound, Grown, First, StaleApart, LastShows;
    CreateKeepsSound(g, m, m'.dir, f, e);
    if Exposes(m.dir, f) {
      HalfSound(g, m, f, e);
    }
    if !Exposes(m.dir, f) && mid != t {
      HalfCreated(g, m, f, e);
    }
    if HalfUnsafe(g, m, f) {
      CrashHalf(g, mid, t', m.(dir := m.dir[f := e]), m', d);
    } else {
      CreateCrash(g, t, mid, t', m.(dir := m.dir[f := e]), m', exposed);
    }
  }

  /** The last image of `t` shows the tables `m`.  */
  ghost predicate LastShows(g: Geometry, t: seq<Disk>, m: Meta) {
    t != [] && Holds(g, t[|t| - 1]) && MetaOf(g, t[|t| - 1]) == m
  }

  lemma SearchedVacant(dir: seq<Slot>, k: int, n: seq<byte>, f: int)
    requires Searched(dir, k, n, if f == k then -1 else f) && 0 <= f <= k && (f == k ==> k < |dir| && dir[k][0] == 0)
    ensures f < |dir| && (if f == k then dir[f][0] == 0 else dir[f][0] == 0xe5)
    ensures forall j :: 0 <= j < f ==> dir[j][0] != 0
  {
    hide Match;
  }

  lemma CreatedAt(dir: seq<Slot>, dir': seq<Slot>, f: int, e: Slot)
    requires Created(dir, dir', f, e)
    ensures 0 <= f < |dir'| == |dir| && dir'[f] == e
  {
  }

  lemma NamesApart(g: Geometry, m: Meta, ch: map<int, seq<int>>, n: seq<byte>)
    requires Consistent(g, m, ch, -1) && forall i :: IsFile(m.dir, i) ==> Name(m.dir[i]) != n
    ensures forall i :: i in ch ==> 0 <= i < |m.dir| && Name(m.dir[i]) != n
  {
    hide Sound, IsChain, Fits, Name, First, Size;
  }

  /** The volume with a new file.  */
  lemma CreateAll(g: Geometry, d: Disk, m: Meta, ch: map<int, seq<int>>, d': Disk, m': Meta, f: int, e: Slot,
                  n: seq<byte>, files: Files)
    requires g.Wf() && Holds(g, d) && Holds(g, d') && SameData(g, d, d')
    requires Consistent(g, m, ch, -1) && Shows(g, d, m, ch, -1, [], files)
    requires m' == m.(dir := m'.dir) && Created(m.dir, m'.dir, f, e)
    requires Name(e) == n && e[0] != 0 && e[0] != 0xe5 && First(g, e) == 0 && Size(e) == 0 && e[11] == 0
    requires forall i :: IsFile(m.dir, i) ==> Name(m.dir[i]) != n
    ensures f !in ch && Consistent(g, m', ch[f := []], f) && 0 <= f < |m'.dir| && Name(m'.dir[f]) == n && n !in files
    ensures Shows(g, d', m', ch[f := []], f, [], files[n := File(false, [])])
    ensures Pool(g, m', ch[f := []]) == Pool(g, m, ch)
  {
    hide Consistent, Shows, Sound, SameData, First, Created, Pool, Name, Size, IsFile, Geometry.Wf;
    CreateKeeps(g, m, ch, m'.dir, f, e);
    ConsistentAlso(g, m', ch[f := []], f);
    CreatedAt(m.dir, m'.dir, f, e);
    NamesApart(g, m, ch, n);
    CreateShows(g, d, m, ch, d', m', f, files);
  }

  lemma SearchedLive(dir: seq<Slot>, k: int, n: seq<byte>, f: int)
    requires Searched(dir, k, n, if f == k then -1 else f) && k < |dir| && dir[k][0] != 0
    ensures forall j :: 0 <= j <= k ==> dir[j][0] != 0
  {
  }

  /** What the search finds is a file that exists exactly if the name does not start
      with $E5: the search does not pass deleted slots by, and the name of one starts
      with that byte.  */
  lemma FoundIsLive(dir: seq<Slot>, k: int, n: seq<byte>, f: int)
    requires Searched(dir, k, n, f) && 0 <= k < |dir| && dir[k][0] != 0 && Match(dir[k], n)
    ensures |n| == 11 && (IsFile(dir, k) <==> n[0] != 0xe5)
  {
  }

  /** A deleted file is found again under the name that deleting gave it.  */
  lemma DeletedIsFound(e: Slot)
    requires e[0] == 0xe5 && !Special(e)
    ensures Match(e, Name(e)) && Searched([e], 0, Name(e), -1) && !IsFile([e], 0)
  {
  }

  /** A volume with one file, whose cluster a deleted slot still records.  */
  function ReusedTables(): (m: Meta)
    ensures |m.fat| == 4 && |m.dir| == 32
  {
    Meta([0xfff8, 0xffff, 0xffff, 0],
         [OneCluster(0xe5), OneCluster(66)] + seq(30, i => seq(32, j => 0)))
  }

  function OneCluster(c: byte): Slot {
    Put16(Put16(Blank([c] + seq(10, j => 65)), 0x1a, 2), 28, 512)
  }

  lemma DeadFields(c: byte)
    ensures var e := OneCluster(c);
            e[0] == c && e[11] == 0 && First(SmallGeometry(), e) == 2 && Size(e) == 512 && Name(e)[0] == c
  {
  }

  lemma ReusedFields(i: int)
    ensures var g, m := SmallGeometry(), ReusedTables();
            && m.dir[0] == OneCluster(0xe5) && m.dir[1] == OneCluster(66)
            && (Live(m.dir, i) <==> i == 1)
  {
    var m := ReusedTables();
    DeadFields(0xe5);
    DeadFields(66);
    hide OneCluster;
    assert m.dir[0] == OneCluster(0xe5) && m.dir[1] == OneCluster(66) && m.dir[2][0] == 0;
    hide ReusedTables;
    assert Live(m.dir, i) ==> i < 2;
  }

  lemma ReusedConsistent(g: Geometry, m: Meta)
    requires g == SmallGeometry() && m == ReusedTables()
    ensures g.Wf() && Consistent(g, m, map[1 := [2]], -1) && Points(m.dir, 1) && m.fat == [0xfff8, 0xffff, 0xffff, 0]
    ensures var e := m.dir[1]; First(g, e) == 2 && m.dir[0][0] == 0xe5 && !Special(m.dir[0]) && First(g, m.dir[0]) == 2
  {
    assert Pow2(0) == 1;
    assert m.fat == [0xfff8, 0xffff, 0xffff, 0];
    forall i
      ensures Live(m.dir, i) <==> i == 1
    {
      ReusedFields(i);
    }
    ReusedFields(0);
    DeadFields(0xe5);
    DeadFields(66);
    assert Room(g, 1) == 512;
    hide ReusedTables, OneCluster, First, Size, Live, Name;
    assert forall x :: !FatPtr(g, m, x);
    assert forall i :: DirPtr(g, m, i) <==> i == 1;
    assert IsChain(g, m.fat, 2, [2]) && Fits(g, 1, 512);
    hide IsChain, Fits, FatPtr, DirPtr;
  }

  /** Deleting by the marked name of that slot frees the cluster of the file.  */
  lemma DeletesAnother()
    ensures var g, m := SmallGeometry(), ReusedTables();
            var n, m' := Name(m.dir[0]), DeletedTables(g, m, 0);
            && g.Wf() && Consistent(g, m, map[1 := [2]], -1)
            && n[0] == 0xe5 && Searched(m.dir, 0, n, -1) && Match(m.dir[0], n)
            && m'.dir[1] == m.dir[1] && m.fat[2] != 0 && m'.fat[2] == 0 && !Sound(g, m')
  {
    var g, m := SmallGeometry(), ReusedTables();
    ReusedConsistent(g, m);
    hide ReusedTables, Consistent, Points;
    var m' := DeletedTables(g, m, 0);
    assert FreeChain(g, m.fat, 2).0 == [0xfff8, 0xffff, 0, 0];
    DeletedFields(m.dir[0]);
    ReusedPoints(m.dir, m'.dir);
    hide First, Special, FreeChain;
    assert DirPtr(g, m', 1);
  }

  lemma ReusedPoints(dir: seq<Slot>, dir': seq<Slot>)
    requires |dir| == |dir'| > 1 && Points(dir, 1) && dir'[1] == dir[1] && dir'[0][0] != 0
    ensures Points(dir', 1)
  {
  }

  /** A slot written under such a name does not come to life.  */
  lemma WrittenIsLive(dir: seq<Slot>, f: int, e: Slot)
    requires 0 <= f < |dir| && e[0] != 0 && !Special(e) && forall j :: 0 <= j < f ==> dir[j][0] != 0
    ensures IsFile(dir[f := e], f) <==> Name(e)[0] != 0xe5
  {
  }

  lemma TypableFirst(n: seq<byte>)
    requires |n| == 11 && Typable(n)
    ensures n[0] != 0
  {
  }

  lemma BaseArith(base: int, r: int, floc: int)
    requires base % SECTORSIZE == 0 && r % SECTORSIZE == 0 && r < floc <= base + SECTORSIZE
    ensures r <= base
  {
    var p, q := base / SECTORSIZE, r / SECTORSIZE;
    assert base == SECTORSIZE * p && r == SECTORSIZE * q;
  }

  /** The start of the cluster that the buffer of a reader is from.  */
  lemma SeekBase(g: Geometry, cl: seq<int>, size: int, k: int, floc: int, frem: int, bufat: int, bufend: int, fclust: int)
    requires ReaderAt(g, cl, size, k, floc, frem, bufat, bufend, fclust)
    ensures floc - bufend - (floc - bufend) % g.ClusterSize() == Room(g, k)
    ensures 0 <= floc - Room(g, k) <= g.ClusterSize() && Room(g, k + 1) == Room(g, k) + g.ClusterSize()
    ensures floc == Room(g, k) ==> floc == 0
    ensures floc + frem == Min(Room(g, k + 1), size) && Room(g, k) <= floc - bufend && (bufend > 0 || floc == 0)
    ensures (size > 0 ==> k < |cl| && fclust == cl[k]) && 0 <= k
  {
    RoomSectors(g, k);
    ClusterSectors(g);
    assert Room(g, k + 1) == Room(g, k) + g.ClusterSize();
    assert k == 0 ==> Room(g, k) == 0;
    hide Geometry.ClusterSize, Room;
    if k > 0 {
      BaseArith(floc - bufend, Room(g, k), floc);
    }
    RoomTimes(g, k, floc - bufend - Room(g, k));
  }

  lemma SectorStart(pos: int, at: int)
    requires at % SECTORSIZE == 0 && at <= pos < at + SECTORSIZE
    ensures at == pos - pos % SECTORSIZE
  {
  }

  lemma AstrayArith(pos: int, lo: int, hi: int, floc: int, frem: int, bufend: int, size: int)
    requires 0 <= pos && lo <= pos < hi && hi % SECTORSIZE == 0 && pos < floc
    requires floc - bufend == pos - pos % SECTORSIZE && bufend == Min(SECTORSIZE, size - (floc - bufend))
    requires Min(hi, size) < floc + frem <= size
    ensures floc % SECTORSIZE == 0 && lo < floc <= hi < floc + frem <= size
  {
    var q, h := pos / SECTORSIZE, hi / SECTORSIZE;
    assert hi == SECTORSIZE * h && SECTORSIZE * q <= pos < SECTORSIZE * q + SECTORSIZE;
    assert q < h && floc == SECTORSIZE * (q + 1);
  }

  /** Where the buffer of a reader ends that holds the sector of `pos`.  */
  lemma SeekFloc(pos: int, size: int, lo: int, hi: int, floc: int, bufend: int)
    requires 0 <= pos < size && lo <= pos < hi && hi % SECTORSIZE == 0
    requires bufend == Min(SECTORSIZE, size - (floc - bufend)) && floc - bufend == pos - pos % SECTORSIZE
    ensures pos < floc <= size && floc <= hi && pos % SECTORSIZE < bufend <= floc
    ensures (floc % SECTORSIZE == 0 || floc == size) && (floc - bufend) % SECTORSIZE == 0
  {
  }

  lemma SeekOne(g: Geometry, size: int)
    ensures Room(g, 0) == 0 && Room(g, 1) == g.ClusterSize() > 0
  {
    ClusterSectors(g);
  }

  lemma SeekRoom(g: Geometry, k: int)
    requires 0 <= k
    ensures Room(g, k + 1) == Room(g, k) + g.ClusterSize() && g.ClusterSize() > 0
  {
    ClusterSectors(g);
  }

  lemma ClusterSizeIs(g: Geometry)
    ensures g.clustershift == 0 ==> g.ClusterSize() == 512
    ensures g.clustershift == 2 ==> g.ClusterSize() == 2048
  {
    assert Pow2(0) == 1 && Pow2(1) == 2 && Pow2(2) == 4;
  }

  /** A file fills its last cluster exactly if its size is a multiple of the cluster
      size.  */
  lemma FillsLast(g: Geometry, n: nat, size: int)
    requires Fits(g, n, size) && size > 0
    ensures g.ClusterSize() > 0 && (Room(g, n) <= size <==> size % g.ClusterSize() == 0)
  {
    RoomIs(g, n);
    ClusterSectors(g);
    hide Geometry.ClusterSize, Room;
    MultipleBetween(n, g.ClusterSize(), size);
  }

  lemma MultipleBetween(n: int, cs: int, size: int)
    requires cs > 0 && n * cs - cs < size <= n * cs
    ensures n * cs <= size <==> size % cs == 0
  {
    if size < n * cs {
      assert size == (n - 1) * cs + (size - (n - 1) * cs);
      DivMod(n - 1, cs, size - (n - 1) * cs);
    } else {
      DivMod(n, cs, 0);
    }
  }

  lemma SeekSector(g: Geometry, k: nat, pos: int)
    requires Room(g, k) <= pos
    ensures Room(g, k) <= pos - pos % SECTORSIZE
  {
    RoomSectors(g, k);
    hide Room;
  }

  /** The step of seek to the next cluster.  */
  lemma SeekStep(g: Geometry, fat: seq<int>, first: int, cl: seq<int>, k: int)
    requires g.Wf() && |fat| == g.totclusters && IsChain(g, fat, first, cl) && 0 <= k < |cl|
    ensures 2 <= cl[k] < g.totclusters && Room(g, k + 1) == Room(g, k) + g.ClusterSize() > Room(g, k)
    ensures 2 <= fat[cl[k]] < g.totclusters <==> k + 1 < |cl|
    ensures k + 1 < |cl| ==> fat[cl[k]] == cl[k + 1]
  {
    ClusterSectors(g);
    ChainStep(g, fat, first, cl, k);
    hide Geometry.Spc, IsChain;
  }

  /** After a flush the last image of the trail shows the tables.  */
  lemma DiskLast(vol: Volume)
    requires vol.Valid() && !vol.dirty
    ensures vol.trail != [] && vol.trail[|vol.trail| - 1] == vol.disk && Holds(vol.geo, vol.disk)
    ensures MetaOf(vol.geo, vol.disk) == vol.M()
  {
    hide MetaOf;
  }

  lemma WordZero(dir: seq<Slot>, i: int)
    ensures 0 <= i < |dir| ==> Put16(dir[i], 0, 0)[0] == 0
  {
  }

  /** An image that shows unsound tables is there to stay.  */
  lemma CrashHalf(g: Geometry, t: seq<Disk>, t': seq<Disk>, m: Meta, m': Meta, d: Disk)
    requires LastShows(g, t, m) && !Sound(g, m) && Grown(g, t, t', m')
    requires t' != [] && t'[|t'| - 1] == d && Holds(g, d) && Sound(g, MetaOf(g, d))
    ensures Crash(g, t', true)
  {
    hide MetaOf, Sound;
    var i := |t| - 1;
    assert t'[i] == t'[..|t|][i] == t[i];
  }

  /** The images of a creation: first the new slot, if it is written on its own,
      then the end mark too.  */
  lemma CreateCrash(g: Geometry, t1: seq<Disk>, t2: seq<Disk>, t3: seq<Disk>, m1: Meta, m2: Meta, exposed: bool)
    requires Crash(g, t1, exposed) && Grown(g, t2, t3, m2) && Sound(g, m2)
    requires t2 == t1 || (Grown(g, t1, t2, m1) && Sound(g, m1))
    ensures Crash(g, t3, exposed)
  {
    hide Sound, Crash, Grown;
    if t2 != t1 {
      CrashOn(g, t1, t2, m1, exposed);
    }
    CrashOn(g, t2, t3, m2, exposed);
  }

  lemma FitsBounds(g: Geometry, n: int, size: int)
    requires Fits(g, n, size)
    ensures 0 <= size <= Room(g, n) && Room(g, 0) == 0
  {
  }

  lemma FirstBelow(g: Geometry, fat: seq<int>, first: int, cl: seq<int>)
    requires g.Wf() && |fat| == g.totclusters && IsChain(g, fat, first, cl)
    ensures cl == [] ==> first == 0 || first >= g.EndOfChain()
    ensures cl != [] ==> 2 <= first == cl[0] < g.totclusters <= g.EndOfChain()
  {
    if cl != [] {
      ChainStep(g, fat, first, cl, 0);
    }
    hide IsChain;
  }

  lemma NoChainNoBytes(g: Geometry, cl: seq<int>, size: int)
    requires 0 <= size <= Room(g, |cl|)
    ensures size > g.ClusterSize() ==> cl != []
  {
  }

  lemma {:induction false} RoomSum(g: Geometry, n: nat, f: nat)
    ensures Room(g, n + f) == Room(g, n) + Room(g, f)
  {
    if f > 0 {
      RoomSum(g, n, f - 1);
    }
  }

  /** A file of n clusters wastes less than one of them.  */
  lemma RoomWaste(g: Geometry, n: nat, f: nat, size: int)
    requires Fits(g, n, size)
    ensures Room(g, f) <= Room(g, n + f) - size <= Room(g, f) + g.ClusterSize()
  {
    RoomSum(g, n, f);
  }

  lemma ConsistentAlso(g: Geometry, m: Meta, ch: map<int, seq<int>>, w: int)
    requires Consistent(g, m, ch, -1)
    ensures Consistent(g, m, ch, w)
  {
  }

  /** A file without clusters, open for writing.  */
  lemma WriterStart(g: Geometry, fat: seq<int>, n: nat)
    requires |fat| == g.totclusters
    ensures WriterAt(g, fat, [], 0, 0, 0, 0, 0)
  {
    hide FreeSet;
  }

  /** A truncated file shows no bytes, the others what they showed.  */
  lemma TruncateShows(g: Geometry, d: Disk, m: Meta, ch: map<int, seq<int>>, d': Disk, m': Meta, i: int, files: Files)
    requires Consistent(g, m, ch, -1) && i in ch && 0 <= i < |m.dir| && Shows(g, d, m, ch, -1, [], files)
    requires Holds(g, d) && Holds(g, d') && SameData(g, d, d')
    requires |m'.dir| == |m.dir| && forall j :: 0 <= j < |m.dir| && j != i ==> m'.dir[j] == m.dir[j]
    requires Name(m'.dir[i]) == Name(m.dir[i]) && m'.dir[i][11] == m.dir[i][11]
    ensures Name(m.dir[i]) in files && FileData(g, d', [], 0) == []
    ensures Shows(g, d', m', ch[i := []], i, [], files[Name(m.dir[i]) := File(files[Name(m.dir[i])].locked, [])])
  {
    hide Sound, IsChain, Fits, Size, Name, First, IsFile, FileBytes;
    var ch', files' := ch[i := []], files[Name(m.dir[i]) := File(files[Name(m.dir[i])].locked, [])];
    assert FileData(g, d', [], 0) == [];
    hide FileData;
    forall j | j in ch'
      ensures 0 <= j < |m'.dir| && Name(m'.dir[j]) in files'
      ensures files'[Name(m'.dir[j])] == File(Locked(m'.dir[j]), if j == i then [] else FileData(g, d', ch'[j], Size(m'.dir[j])))
    {
      assert j in ch;
      DataSame(g, d, d', ch[j], Size(m.dir[j]));
    }
    forall n | n in files'
      ensures NameTaken(m', ch', n)
    {
      assert n in files;
      assert NameTaken(m, ch, n);
      var j :| j in ch && 0 <= j < |m.dir| && Name(m.dir[j]) == n;
      assert j in ch';
    }
  }

  lemma DivBounds(t: int, k: int)
    requires 0 < k
    ensures 0 <= t % k < k
  {
  }

  /** The size to be recorded fits the chain.  */
  lemma WriterFits(g: Geometry, fat: seq<int>, cl: seq<int>, floc: int, frem: int, bufat: int, fclust: int, writelink: int)
    requires g.Wf() && |fat| == g.totclusters && WriterAt(g, fat, cl, floc, frem, bufat, fclust, writelink)
    requires bufat > 0 ==> frem >= SECTORSIZE
    ensures Fits(g, |cl|, floc + bufat)
  {
    RoomIs(g, |cl|);
    if frem == g.ClusterSize() && bufat == 0 && |cl| > 1 {
      RoomMono(g, 2, |cl|);
    }
  }

  /** A full chain with bytes waiting means that a cluster is free.  */
  lemma WriterFull(g: Geometry, fat: seq<int>, cl: seq<int>, floc: int, frem: int, bufat: int, fclust: int, writelink: int)
    requires g.Wf() && |fat| == g.totclusters && WriterAt(g, fat, cl, floc, frem, bufat, fclust, writelink)
    requires bufat > 0 && frem < SECTORSIZE
    ensures frem == 0 && FreeSet(g, fat) != {}
  {
    RoomSectors(g, |cl|);
    hide FreeSet, Geometry.Wf, Geometry.Spc, Geometry.FatAddr;
  }

  lemma WriterGrown(g: Geometry, fat: seq<int>, fat': seq<int>, cl: seq<int>, c: int,
                    floc: int, frem: int, bufat: int, fclust: int, writelink: int)
    requires g.Wf() && |fat| == |fat'| == g.totclusters
    requires c in FreeSet(g, fat) && FreeSet(g, fat') == FreeSet(g, fat) - {c}
    requires WriterAt(g, fat, cl, floc, frem, bufat, fclust, writelink) && bufat > 0 && frem == 0
    ensures WriterAt(g, fat', cl + [c], floc, g.ClusterSize(), bufat, c, g.FatAddr(c))
    ensures |cl + [c]| + |FreeSet(g, fat')| == |cl| + |FreeSet(g, fat)|
  {
    hide FreeSet;
  }

  /** What the invariant gives the allocation to work with.  */
  lemma WriterLinks(g: Geometry, m: Meta, ch: map<int, seq<int>>, slot: int,
                    floc: int, frem: int, bufat: int, fclust: int, writelink: int)
    requires g.Wf() && Consistent(g, m, ch, slot) && slot in ch
    requires WriterAt(g, m.fat, ch[slot], floc, frem, bufat, fclust, writelink)
    ensures Sound(g, m) && |m.fat| == g.totclusters && 0 <= slot < |m.dir| && AllData(g, ch[slot])
    ensures m.fat[0] != 0 && m.fat[1] != 0 && 0 <= fclust < g.totclusters
    ensures 0 <= floc <= Room(g, |ch[slot]|) && 0 <= floc + bufat < 0x8000_0000 && 0 <= bufat <= SECTORSIZE
    ensures ch[slot] != [] ==> g.IsData(fclust) && fclust == ch[slot][|ch[slot]| - 1]
    ensures if ch[slot] == [] then writelink == 0 else writelink == g.FatAddr(fclust) != 0
  {
    hide Sound, Fits, First;
    assert IsFile(m.dir, slot);
    if ch[slot] != [] {
      ChainStep(g, m.fat, First(g, m.dir[slot]), ch[slot], |ch[slot]| - 1);
    }
  }

  lemma GrowShows(g: Geometry, d: Disk, m: Meta, ch: map<int, seq<int>>, d': Disk, m': Meta, slot: int, c: int,
                  floc: int, tail: seq<byte>, files: Files)
    requires Holds(g, d) && Holds(g, d') && SameData(g, d, d') && slot in ch && AllData(g, ch[slot]) && g.IsData(c)
    requires 0 <= floc <= Room(g, |ch[slot]|) && |m'.dir| == |m.dir| && 0 <= slot < |m.dir|
    requires Name(m'.dir[slot]) == Name(m.dir[slot]) && m'.dir[slot][11] == m.dir[slot][11]
    requires forall i :: 0 <= i < |m.dir| && i != slot ==> m'.dir[i] == m.dir[i]
    requires Shows(g, d, m, ch, slot, FileData(g, d, ch[slot], floc) + tail, files)
    ensures var cl' := ch[slot] + [c];
            && FileData(g, d', cl', floc) == FileData(g, d, ch[slot], floc)
            && Shows(g, d', m', ch[slot := cl'], slot, FileData(g, d', cl', floc) + tail, files)
  {
    hide Name, Size, Locked;
    var cl' := ch[slot] + [c];
    BytesGrow(g, d, ch[slot], c, floc);
    DataSame(g, d, d', cl', floc);
    forall i | i in ch
      ensures FileData(g, d', ch[i], Size(m.dir[i])) == FileData(g, d, ch[i], Size(m.dir[i]))
    {
      DataSame(g, d, d', ch[i], Size(m.dir[i]));
    }
    ShowsKeep(g, d, m, ch, d', m', ch[slot := cl'], slot, FileData(g, d, ch[slot], floc) + tail, files);
  }

  /** With at least a sector left in it, the last cluster is where the buffer
      goes.  */
  lemma WriterSector(g: Geometry, fat: seq<int>, cl: seq<int>, floc: int, frem: int, bufat: int, fclust: int, writelink: int)
    requires g.Wf() && |fat| == g.totclusters && WriterAt(g, fat, cl, floc, frem, bufat, fclust, writelink)
    requires frem >= SECTORSIZE
    ensures cl != [] && floc / SECTORSIZE / g.Spc() == |cl| - 1 && fclust == cl[|cl| - 1]
    ensures 0 <= floc / SECTORSIZE % g.Spc() < g.Spc()
    ensures floc == SECTORSIZE * (floc / SECTORSIZE) && floc + SECTORSIZE <= Room(g, |cl|)
  {
    hide FreeSet;
    RoomSectors(g, |cl|);
    if cl == [] {
      assert false;
    }
    SectorAt(g, |cl| - 1, floc / SECTORSIZE);
  }

  lemma WriterAdvance(g: Geometry, fat: seq<int>, cl: seq<int>, floc: int, frem: int, bufat: int, fclust: int, writelink: int)
    requires g.Wf() && |fat| == g.totclusters && WriterAt(g, fat, cl, floc, frem, bufat, fclust, writelink)
    requires frem >= SECTORSIZE == bufat
    ensures WriterAt(g, fat, cl, floc + SECTORSIZE, frem - SECTORSIZE, 0, fclust, writelink)
  {
    hide FreeSet;
  }

  /** Storing the buffer as the last sector of the chain: the bytes before it stay,
      its own follow, no other file changes.  */
  lemma StoreShows(g: Geometry, d: Disk, d': Disk, m: Meta, ch: map<int, seq<int>>, slot: int,
                   t: int, b: Block, k: int, files: Files)
    requires Holds(g, d) && Holds(g, d') && Consistent(g, m, ch, slot) && slot in ch && ch[slot] != []
    requires 0 <= t && t / g.Spc() == |ch[slot]| - 1 && 0 <= t % g.Spc() < g.Spc()
    requires SECTORSIZE * t + SECTORSIZE <= Room(g, |ch[slot]|) && 0 <= k <= SECTORSIZE
    requires g.IsData(ch[slot][|ch[slot]| - 1]) && Sector(g, d', ch[slot][|ch[slot]| - 1], t % g.Spc()) == b
    requires forall c, s :: g.IsData(c) && 0 <= s < g.Spc() && !(c == ch[slot][|ch[slot]| - 1] && s == t % g.Spc())
               ==> Sector(g, d', c, s) == Sector(g, d, c, s)
    requires Shows(g, d, m, ch, slot, FileData(g, d, ch[slot], SECTORSIZE * t) + b[..k], files)
    ensures FileData(g, d', ch[slot], SECTORSIZE * t) == FileData(g, d, ch[slot], SECTORSIZE * t)
    ensures FileData(g, d', ch[slot], SECTORSIZE * t + k) == FileData(g, d, ch[slot], SECTORSIZE * t) + b[..k]
    ensures Shows(g, d', m, ch, slot, FileData(g, d, ch[slot], SECTORSIZE * t) + b[..k], files)
  {
    hide Sound, Fits, IsChain, Live, Special, First, FileBytes, Name, Size, Locked, Shows, Room, Geometry.Wf;
    var cl := ch[slot];
    ChainDistinct(g, m, ch, slot, slot);
    BytesPut(g, d, d', cl, t, b, 0);
    BytesPut(g, d, d', cl, t, b, k);
    assert b[..0] == [];
    assert FileData(g, d', cl, SECTORSIZE * t) == FileData(g, d, cl, SECTORSIZE * t);
    assert FileData(g, d', cl, SECTORSIZE * t + k) == FileData(g, d, cl, SECTORSIZE * t) + b[..k];
    hide FileData;
    forall i | i in ch && i != slot
      ensures 0 <= i < |m.dir| && FileData(g, d', ch[i], Size(m.dir[i])) == FileData(g, d, ch[i], Size(m.dir[i]))
    {
      assert IsFile(m.dir, i);
      DataOthers(g, d, d', m, ch, slot, |cl| - 1, i, Size(m.dir[i]));
    }
    ShowsKeep(g, d, m, ch, d', m, ch, slot, FileData(g, d, cl, SECTORSIZE * t) + b[..k], files);
  }

  lemma SlotOffsets(r: int, i: int)
    requires r % 512 == 0 && 0 <= i
    ensures (r + 32 * i) % 512 == i % 16 * 32 && (i % 16 * 32) % 2 == 0 && (r + 32 * i) % 2 == 0
  {
    var q, a, b := r / 512, i / 16, i % 16;
    assert r == 512 * q && i == 16 * a + b;
    SlotOffsetOf(q + a, b);
  }

  lemma SlotOffsetOf(a: int, b: int)
    requires 0 <= b < 16
    ensures (512 * a + 32 * b) % 512 == b * 32 && (b * 32) % 2 == 0 && (512 * a + 32 * b) % 2 == 0
  {
    DivMod(a, 512, 32 * b);
    DivMod(16 * b, 2, 0);
    DivMod(256 * a + 16 * b, 2, 0);
  }

  lemma SlotOffsetIs(g: Geometry, i: int)
    requires g.Wf() && 0 <= i < g.Slots()
    ensures g.SlotAddr(i) % SECTORSIZE == g.SlotOff(i) && g.SlotOff(i) % 2 == 0 && g.SlotAddr(i) % 2 == 0
    ensures g.SlotAddr(i) > 0
  {
    SlotOffsets(g.rootdir, i);
  }

  /** Bytes accepted into the buffer.  */
  lemma PendShows(g: Geometry, d: Disk, m: Meta, ch: map<int, seq<int>>, slot: int, pend: seq<byte>, pend': seq<byte>, files: Files)
    requires Consistent(g, m, ch, slot) && slot in ch && Shows(g, d, m, ch, slot, pend, files)
    ensures 0 <= slot < |m.dir| && Name(m.dir[slot]) in files
    ensures files[Name(m.dir[slot])].data == pend
    ensures Shows(g, d, m, ch, slot, pend', files[Name(m.dir[slot]) := File(files[Name(m.dir[slot])].locked, pend')])
  {
    hide Sound, IsChain, Fits, FileData, Size, Locked;
    var key := Name(m.dir[slot]);
    var files' := files[key := File(files[key].locked, pend')];
    forall n | n in files'
      ensures NameTaken(m, ch, n)
    {
      if n == key {
        assert slot in ch;
      } else {
        assert n in files;
      }
    }
  }

  lemma WriterAccept(g: Geometry, fat: seq<int>, cl: seq<int>, floc: int, frem: int, bufat: int, fclust: int, writelink: int, t: int)
    requires |fat| == g.totclusters && WriterAt(g, fat, cl, floc, frem, bufat, fclust, writelink)
    requires 0 <= t && bufat + t <= SECTORSIZE && floc + bufat + t < 0x8000_0000
    requires floc + bufat + t <= Room(g, |cl| + |FreeSet(g, fat)|)
    ensures WriterAt(g, fat, cl, floc, frem, bufat + t, fclust, writelink)
  {
    hide FreeSet, Room;
  }

  /** Once its size is recorded, a file shows the same bytes closed as open.  */
  lemma CloseShows(g: Geometry, d: Disk, m: Meta, ch: map<int, seq<int>>, slot: int, pend: seq<byte>, files: Files)
    requires Shows(g, d, m, ch, slot, pend, files) && slot in ch && 0 <= slot < |m.dir|
    requires FileData(g, d, ch[slot], Size(m.dir[slot])) == pend
    ensures Shows(g, d, m, ch, -1, [], files)
  {
    hide FileData, Name, Size, Locked;
  }

  lemma FilesTwice(f: Files, f': Files, f'': Files, key: seq<byte>)
    ensures key in f && key in f' && f' == f[key := File(f[key].locked, f'[key].data)] &&
            key in f'' && f'' == f'[key := File(f'[key].locked, f''[key].data)] ==>
              f'' == f[key := File(f[key].locked, f''[key].data)]
  {
  }

  lemma PrefixGrows(s: seq<byte>, k: int, t: int)
    requires 0 <= k && 0 <= t && k + t <= |s|
    ensures s[..k] + s[k..][..t] == s[..k + t] && s[k..][t..] == s[k + t..]
  {
  }

  lemma ConsistentSound(g: Geometry, m: Meta, ch: map<int, seq<int>>, w: int)
    requires Consistent(g, m, ch, w)
    ensures Sound(g, m)
  {
  }

  /** Storing a size shows no other bytes of any file.  */
  lemma SizeShows(g: Geometry, d: Disk, m: Meta, ch: map<int, seq<int>>, d': Disk, m': Meta, slot: int,
                  floc: int, size: int, tail: seq<byte>, files: Files)
    requires Holds(g, d) && Holds(g, d') && SameData(g, d, d') && slot in ch && 0 <= slot < |m.dir|
    requires |m'.dir| == |m.dir| && m'.dir == m.dir[slot := m'.dir[slot]]
    requires Name(m'.dir[slot]) == Name(m.dir[slot]) && m'.dir[slot][11] == m.dir[slot][11]
    requires Shows(g, d, m, ch, slot, FileData(g, d, ch[slot], floc) + tail, files)
    ensures FileData(g, d', ch[slot], floc) == FileData(g, d, ch[slot], floc)
    ensures FileData(g, d', ch[slot], size) == FileData(g, d, ch[slot], size)
    ensures Shows(g, d', m', ch, slot, FileData(g, d, ch[slot], floc) + tail, files)
  {
    hide Name, Size, Locked, FileData;
    DataSame(g, d, d', ch[slot], floc);
    DataSame(g, d, d', ch[slot], size);
    forall i | i in ch
      ensures FileData(g, d', ch[i], Size(m.dir[i])) == FileData(g, d, ch[i], Size(m.dir[i]))
    {
      DataSame(g, d, d', ch[i], Size(m.dir[i]));
    }
    ShowsKeep(g, d, m, ch, d', m', ch, slot, FileData(g, d, ch[slot], floc) + tail, files);
  }

  /** The entry that popen takes for the file `n`; a deleted one can pass, if the
      name itself starts with the mark of deletion.  */
  predicate Match(e: Slot, n: seq<byte>) { Name(e) == n && !Special(e) }

  predicate Vacant(e: Slot) { e[0] == 0 || e[0] == 0xe5 }

  /** Before slot k the search for `n` found neither it nor the end, and `f` is the
      first vacant slot, or -1.  */
  ghost predicate Searched(dir: seq<Slot>, k: int, n: seq<byte>, f: int) {
    && 0 <= k <= |dir| && -1 <= f < k
    && (forall j :: 0 <= j < k ==> dir[j][0] != 0 && !Match(dir[j], n))
    && (f >= 0 ==> Vacant(dir[f]))
    && (forall j :: 0 <= j < (if f >= 0 then f else k) ==> !Vacant(dir[j]))
  }

  lemma SearchedNone(dir: seq<Slot>, n: seq<byte>)
    ensures Searched(dir, 0, n, -1)
  {
  }

  lemma SearchedBounds(dir: seq<Slot>, k: int, n: seq<byte>, f: int)
    requires Searched(dir, k, n, f)
    ensures 0 <= k <= |dir| && -1 <= f < k
  {
  }

  /** The search goes on to the next slot.  */
  lemma SearchedNext(dir: seq<Slot>, k: int, n: seq<byte>, f0: int, f: int)
    requires Searched(dir, k, n, f0) && k < |dir| && dir[k][0] != 0 && !Match(dir[k], n)
    requires f == if f0 < 0 && (dir[k][0] == 0 || dir[k][0] == 0xe5) then k else f0
    ensures Searched(dir, k + 1, n, f)
  {
    hide Match;
  }

  ghost predicate NoneVacant(dir: seq<Slot>) {
    forall i :: 0 <= i < |dir| ==> !Vacant(dir[i])
  }

  lemma SearchedFull(dir: seq<Slot>, k: int, n: seq<byte>, f: int)
    requires Searched(dir, k, n, if f == k then -1 else f) && -1 <= f <= k
    requires if k < |dir| then dir[k][0] == 0 && f >= 0 else f < k
    ensures NoneVacant(dir) <==> f < 0
  {
    hide Match;
  }

  /** The slot that popen creates a file in.  */
  ghost predicate FirstVacant(dir: seq<Slot>, f: int) {
    0 <= f < |dir| && Vacant(dir[f]) && forall j :: 0 <= j < f ==> !Vacant(dir[j])
  }

  lemma SearchedFirst(dir: seq<Slot>, k: int, n: seq<byte>, f: int)
    requires Searched(dir, k, n, if f == k then -1 else f) && 0 <= f <= k && (f == k ==> k < |dir| && dir[k][0] == 0)
    ensures FirstVacant(dir, f)
  {
    hide Match;
  }

  /** Creating a file now would leave the disk unsound between two block writes.  */
  ghost predicate Fragile(g: Geometry, m: Meta) {
    exists f :: FirstVacant(m.dir, f) && HalfUnsafe(g, m, f)
  }

  /** Slot f is the first vacant one, the end mark and the last slot of its sector,
      and the next one does not start with 0.  */
  ghost predicate ExposingAt(heads: seq<byte>, f: int) {
    && 0 <= f && f + 1 < |heads| && f % 16 == 15 && heads[f] == 0 && heads[f + 1] != 0
    && forall j :: 0 <= j < f ==> heads[j] != 0 && heads[j] != 0xe5
  }

  /** Creating a file now would bring stale slots to life; this can be told from the
      first bytes of the slots.  */
  ghost predicate Exposing(heads: seq<byte>) {
    exists f :: ExposingAt(heads, f)
  }

  lemma FragileAt(g: Geometry, m: Meta, f: int)
    requires FirstVacant(m.dir, f)
    ensures Fragile(g, m) <==> HalfUnsafe(g, m, f)
  {
    hide HalfUnsafe;
    assert forall x :: FirstVacant(m.dir, x) ==> x == f;
  }

  /** Stale bytes are needed for that.  */
  lemma FragileExposing(g: Geometry, m: Meta)
    requires Fragile(g, m)
    ensures Exposing(HeadsOf(m.dir)) && !NoStale(HeadsOf(m.dir))
  {
    var h := HeadsOf(m.dir);
    var f :| FirstVacant(m.dir, f) && HalfUnsafe(g, m, f);
    hide StaleApart;
    assert h[f] == 0 && h[f + 1] != 0;
    assert forall j :: 0 <= j < f ==> !Vacant(m.dir[j]) && h[j] == m.dir[j][0];
    assert ExposingAt(h, f);
  }

  const MODE_R: byte := 114
  const MODE_W: byte := 119
  const MODE_A: byte := 97
  const MODE_D: byte := 100

  /** The files after popen has looked for `n` and found it.  */
  function OpenedFiles(files: Files, n: seq<byte>, mode: byte): Files
    requires n in files
  {
    if mode == MODE_R || files[n].locked then files
    else if mode == MODE_D then files - {n}
    else if mode == MODE_W then files[n := File(false, [])]
    else files
  }

  /** What popen answers when it has found `n`.  */
  function OpenedResult(files: Files, n: seq<byte>, mode: byte): Result<int>
    requires n in files
  {
    if mode == MODE_R then Ok(0)
    else if files[n].locked then Abort(-6)
    else if mode == MODE_D || mode == MODE_W || mode == MODE_A then Ok(0)
    else Abort(-3)
  }

  ghost function SlotNamed(m: Meta, ch: map<int, seq<int>>, n: seq<byte>): int {
    if exists i {:trigger i in ch} :: i in ch && 0 <= i < |m.dir| && Name(m.dir[i]) == n then
      var i {:trigger i in ch} :| i in ch && 0 <= i < |m.dir| && Name(m.dir[i]) == n; i
    else -1
  }

  ghost function RoomNamed(g: Geometry, m: Meta, ch: map<int, seq<int>>, n: seq<byte>): int
    requires |m.fat| == g.totclusters
  {
    var i := SlotNamed(m, ch, n);
    Room(g, (if i >= 0 && i in ch then |ch[i]| else 0) + |FreeSet(g, m.fat)|)
  }

  /** Freeing from cluster `c` on is safe at every moment if nothing leads there.  */
  ghost predicate SafeToFree(g: Geometry, m: Meta, c: int) {
    Sound(g, m) && (2 <= c < g.totclusters ==> Unlinked(g, m, c))
  }

  lemma TrailOn(g: Geometry, t0: seq<Disk>, t: seq<Disk>, t': seq<Disk>, m: Meta, safe: bool)
    requires Prefix(t0, t) && Grown(g, t, t', m)
    requires safe ==> Sound(g, m) && AllSound(g, t, |t0|)
    ensures Prefix(t0, t')
    ensures safe ==> AllSound(g, t', |t0|)
  {
    assert t'[..|t|][..|t0|] == t'[..|t0|];
    if safe {
      GrownSound(g, t, t', m, |t0|);
    }
  }

  /** Clearing entry `c` is the first round of FreeChain.  */
  lemma FreeRound(g: Geometry, m: Meta, c: int)
    requires g.Wf() && |m.fat| == g.totclusters && 2 <= c < g.totclusters
    ensures FreeChain(g, m.fat, c) == FreeChain(g, m.fat[c := 0], m.fat[c])
    ensures m.fat[c] != 0 ==> NonZero(m.fat[c := 0]) < NonZero(m.fat)
    ensures m.fat[c] == 0 ==> m.fat[c := 0] == m.fat
    ensures SafeToFree(g, m, c) ==> SafeToFree(g, m.(fat := m.fat[c := 0]), m.fat[c])
  {
    if m.fat[c] == 0 {
      assert m.fat[c := 0] == m.fat;
    } else {
      assert c in NonZero(m.fat) && c !in NonZero(m.fat[c := 0]);
    }
    if SafeToFree(g, m, c) {
      ZeroKeepsSound(g, m, c);
    }
  }
}
