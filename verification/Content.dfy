/** What the bytes of a file are: the sectors of its chain, one after the
    other.  */
module Content {
  import opened Bytes
  import opened Arith
  import opened Layout
  import opened Fat

  ghost predicate AllData(g: Geometry, cl: seq<int>) {
    forall k :: 0 <= k < |cl| ==> g.IsData(cl[k])
  }

  lemma {:induction false} RoomIs(g: Geometry, n: nat)
    ensures Room(g, n) == n * g.ClusterSize() == SECTORSIZE * (n * g.Spc())
  {
    if n > 0 {
      RoomIs(g, n - 1);
    }
  }

  lemma RoomSectors(g: Geometry, n: nat)
    ensures Room(g, n) % SECTORSIZE == 0
  {
    RoomIs(g, n);
    WholeSectors(n * g.Spc());
  }

  lemma WholeSectors(t: int)
    ensures SECTORSIZE * t % SECTORSIZE == 0
  {
  }

  /** The t-th sector of a chain lies in its (t / Spc)-th cluster.  */
  lemma SectorIndex(g: Geometry, n: nat, t: int)
    requires 0 <= t && SECTORSIZE * t < Room(g, n)
    ensures 0 <= t / g.Spc() < n && 0 <= t % g.Spc() < g.Spc()
    ensures Room(g, t / g.Spc()) + SECTORSIZE * (t % g.Spc()) == SECTORSIZE * t
  {
    RoomIs(g, n);
    DivBelow(t, g.Spc(), n);
    RoomIs(g, t / g.Spc());
  }

  /** The converse: sector s of cluster q of a chain is its sector q * Spc + s.  */
  lemma SectorAt(g: Geometry, q: nat, t: int)
    requires Room(g, q) <= SECTORSIZE * t < Room(g, q + 1)
    ensures t / g.Spc() == q && t % g.Spc() == t - q * g.Spc()
  {
    RoomIs(g, q);
    DivMod(q, g.Spc(), t - q * g.Spc());
  }

  function SectorOf(g: Geometry, d: Disk, cl: seq<int>, t: int): Block
    requires Holds(g, d) && AllData(g, cl) && 0 <= t && SECTORSIZE * t < Room(g, |cl|)
  {
    SectorIndex(g, |cl|, t);
    Sector(g, d, cl[t / g.Spc()], t % g.Spc())
  }

  /** The first n bytes stored along the chain `cl`.  */
  function FileBytes(g: Geometry, d: Disk, cl: seq<int>, n: int): (r: seq<byte>)
    requires Holds(g, d) && AllData(g, cl) && 0 <= n <= Room(g, |cl|)
    ensures |r| == n
  {
    seq(n, p requires 0 <= p < n => SectorOf(g, d, cl, p / SECTORSIZE)[p % SECTORSIZE])
  }

  lemma {:induction false} RoomMono(g: Geometry, a: int, b: int)
    requires a <= b
    ensures Room(g, a) <= Room(g, b)
    decreases b - a
  {
    if a < b {
      RoomMono(g, a, b - 1);
    }
  }

  /** Linking another cluster behind a chain changes none of its bytes.  */
  lemma BytesGrow(g: Geometry, d: Disk, cl: seq<int>, c: int, n: int)
    requires Holds(g, d) && AllData(g, cl) && g.IsData(c) && 0 <= n <= Room(g, |cl|)
    ensures AllData(g, cl + [c]) && n <= Room(g, |cl + [c]|)
    ensures FileBytes(g, d, cl + [c], n) == FileBytes(g, d, cl, n)
  {
    forall p | 0 <= p < n
      ensures FileBytes(g, d, cl + [c], n)[p] == FileBytes(g, d, cl, n)[p]
    {
      SectorIndex(g, |cl|, p / SECTORSIZE);
    }
  }

  /** Bytes depend on the sectors of the chain alone.  */
  lemma BytesSame(g: Geometry, d: Disk, d': Disk, cl: seq<int>, n: int)
    requires Holds(g, d) && Holds(g, d') && AllData(g, cl) && 0 <= n <= Room(g, |cl|)
    requires forall k, s :: 0 <= k < |cl| && 0 <= s < g.Spc() ==> Sector(g, d', cl[k], s) == Sector(g, d, cl[k], s)
    ensures FileBytes(g, d', cl, n) == FileBytes(g, d, cl, n)
  {
    forall p | 0 <= p < n
      ensures FileBytes(g, d', cl, n)[p] == FileBytes(g, d, cl, n)[p]
    {
      SectorIndex(g, |cl|, p / SECTORSIZE);
    }
  }

  /** Storing sector t of a chain leaves the bytes before it and puts the block's
      bytes behind them.  */
  lemma BytesPut(g: Geometry, d: Disk, d': Disk, cl: seq<int>, t: int, b: Block, k: int)
    requires Holds(g, d) && Holds(g, d') && AllData(g, cl) && Distinct(cl)
    requires 0 <= t && SECTORSIZE * t + SECTORSIZE <= Room(g, |cl|) && 0 <= k <= SECTORSIZE
    requires SectorOf(g, d', cl, t) == b
    requires forall c, s :: g.IsData(c) && 0 <= s < g.Spc() && !(0 <= t / g.Spc() < |cl| && c == cl[t / g.Spc()] && s == t % g.Spc())
               ==> Sector(g, d', c, s) == Sector(g, d, c, s)
    ensures FileBytes(g, d', cl, SECTORSIZE * t + k) == FileBytes(g, d, cl, SECTORSIZE * t) + b[..k]
  {
    var n := SECTORSIZE * t + k;
    SectorIndex(g, |cl|, t);
    forall p | 0 <= p < n
      ensures FileBytes(g, d', cl, n)[p] == (FileBytes(g, d, cl, SECTORSIZE * t) + b[..k])[p]
    {
      var u := p / SECTORSIZE;
      SectorIndex(g, |cl|, u);
      if u == t {
      } else {
        assert u < t;
        assert u / g.Spc() == t / g.Spc() ==> cl[u / g.Spc()] == cl[t / g.Spc()] && u % g.Spc() != t % g.Spc();
        assert SectorOf(g, d', cl, u) == SectorOf(g, d, cl, u);
      }
    }
  }

  /** Reading sector t of a chain yields the file's bytes there.  */
  lemma BytesGet(g: Geometry, d: Disk, cl: seq<int>, n: int, t: int, r: int)
    requires Holds(g, d) && AllData(g, cl) && 0 <= n <= Room(g, |cl|)
    requires 0 <= t && 0 <= r <= SECTORSIZE && SECTORSIZE * t + r <= n && SECTORSIZE * t < Room(g, |cl|)
    ensures SectorOf(g, d, cl, t)[..r] == FileBytes(g, d, cl, n)[SECTORSIZE * t..SECTORSIZE * t + r]
  {
    forall k | 0 <= k < r
      ensures SectorOf(g, d, cl, t)[k] == FileBytes(g, d, cl, n)[SECTORSIZE * t + k]
    {
      assert (SECTORSIZE * t + k) / SECTORSIZE == t && (SECTORSIZE * t + k) % SECTORSIZE == k;
    }
  }

  lemma BytesPrefix(g: Geometry, d: Disk, cl: seq<int>, n: int, k: int)
    requires Holds(g, d) && AllData(g, cl) && 0 <= k <= n <= Room(g, |cl|)
    ensures FileBytes(g, d, cl, n)[..k] == FileBytes(g, d, cl, k)
  {
  }

  // ----------------------------------------------------------------- files

  /** What a volume is to its user: names, and for each the bytes of the file and
      whether its attributes forbid writing.  */
  datatype File = File(locked: bool, data: seq<byte>)

  type Files = map<seq<byte>, File>

  ghost function FileData(g: Geometry, d: Disk, cl: seq<int>, n: int): seq<byte> {
    if Holds(g, d) && AllData(g, cl) && 0 <= n <= Room(g, |cl|) then FileBytes(g, d, cl, n) else []
  }

  /** `files` is what disk `d` shows through the chains `ch`; the bytes of the
      file in slot `w`, open for writing, are `pend`.  */
  ghost predicate Shows(g: Geometry, d: Disk, m: Meta, ch: map<int, seq<int>>, w: int, pend: seq<byte>, files: Files) {
    && (forall i {:trigger i in ch} :: i in ch ==>
          && 0 <= i < |m.dir| && Name(m.dir[i]) in files
          && files[Name(m.dir[i])] == File(Locked(m.dir[i]),
                                           if i == w then pend else FileData(g, d, ch[i], Size(m.dir[i]))))
    && (forall n :: n in files ==> NameTaken(m, ch, n))
  }

  ghost predicate NameTaken(m: Meta, ch: map<int, seq<int>>, n: seq<byte>) {
    exists i {:trigger i in ch} :: i in ch && 0 <= i < |m.dir| && Name(m.dir[i]) == n
  }

  /** What is shown is determined by the disk: different chains or files cannot
      describe the same volume.  */
  lemma ShowsUnique(g: Geometry, d: Disk, ch: map<int, seq<int>>, files: Files, ch': map<int, seq<int>>, files': Files)
    requires Holds(g, d)
    requires Consistent(g, MetaOf(g, d), ch, -1) && Shows(g, d, MetaOf(g, d), ch, -1, [], files)
    requires Consistent(g, MetaOf(g, d), ch', -1) && Shows(g, d, MetaOf(g, d), ch', -1, [], files')
    ensures ch == ch' && files == files'
  {
    hide MetaOf, FileData, Sound, Fits;
    var m := MetaOf(g, d);
    forall i | i in ch || i in ch'
      ensures i in ch && i in ch' && ch[i] == ch'[i]
    {
      assert IsFile(m.dir, i);
      ChainUnique(g, m.fat, First(g, m.dir[i]), ch[i], ch'[i]);
    }
    assert ch == ch';
    forall n | n in files || n in files'
      ensures n in files && n in files' && files[n] == files'[n]
    {
      assert NameTaken(m, ch, n);
    }
    assert files == files';
  }

  /** Steps that only concern the file in slot `w` change nothing that is shown.  */
  lemma ShowsKeep(g: Geometry, d: Disk, m: Meta, ch: map<int, seq<int>>, d': Disk, m': Meta, ch': map<int, seq<int>>,
                  w: int, pend: seq<byte>, files: Files)
    requires Shows(g, d, m, ch, w, pend, files)
    requires ch'.Keys == ch.Keys && |m'.dir| == |m.dir|
    requires forall i {:trigger i in ch} :: i in ch ==>
               && 0 <= i < |m.dir| && Name(m'.dir[i]) == Name(m.dir[i]) && m'.dir[i][11] == m.dir[i][11]
               && (i != w ==> ch'[i] == ch[i] && Size(m'.dir[i]) == Size(m.dir[i])
                              && FileData(g, d', ch[i], Size(m.dir[i])) == FileData(g, d, ch[i], Size(m.dir[i])))
    ensures Shows(g, d', m', ch', w, pend, files)
  {
    hide FileData, Name, Size;
    forall i | i in ch'
      ensures 0 <= i < |m'.dir| && Name(m'.dir[i]) in files
      ensures files[Name(m'.dir[i])] == File(Locked(m'.dir[i]),
                                             if i == w then pend else FileData(g, d', ch'[i], Size(m'.dir[i])))
    {
      assert i in ch;
    }
    forall n | n in files
      ensures NameTaken(m', ch', n)
    {
      assert NameTaken(m, ch, n);
      var i :| i in ch && 0 <= i < |m.dir| && Name(m.dir[i]) == n;
      assert i in ch';
    }
  }

  lemma DataSame(g: Geometry, d: Disk, d': Disk, cl: seq<int>, n: int)
    requires Holds(g, d) && Holds(g, d') && SameData(g, d, d')
    ensures FileData(g, d', cl, n) == FileData(g, d, cl, n)
  {
    if AllData(g, cl) && 0 <= n <= Room(g, |cl|) {
      BytesSame(g, d, d', cl, n);
    }
  }

  /** Storing sectors of clusters of one file leaves the others alone.  */
  lemma DataOthers(g: Geometry, d: Disk, d': Disk, m: Meta, ch: map<int, seq<int>>, w: int, q: int, i: int, n: int)
    requires Holds(g, d) && Holds(g, d') && Consistent(g, m, ch, w) && w in ch && i in ch && i != w
    requires 0 <= q < |ch[w]|
    requires forall c, s :: g.IsData(c) && 0 <= s < g.Spc() && c != ch[w][q] ==> Sector(g, d', c, s) == Sector(g, d, c, s)
    ensures FileData(g, d', ch[i], n) == FileData(g, d, ch[i], n)
  {
    hide Sound, Fits;
    if AllData(g, ch[i]) && 0 <= n <= Room(g, |ch[i]|) {
      forall k, s | 0 <= k < |ch[i]| && 0 <= s < g.Spc()
        ensures Sector(g, d', ch[i][k], s) == Sector(g, d, ch[i][k], s)
      {
        if ch[i][k] == ch[w][q] {
          FilesApart(g, m, ch, w, i, k, w, q);
        }
      }
      BytesSame(g, d, d', ch[i], n);
    }
  }
}
