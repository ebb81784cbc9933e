/** What a directory listing shows, and how the variables of an object hang together
    while it walks through the root directory.  */
module Listing {
  import opened Bytes
  import opened Arith
  import opened Layout
  import opened Fat
  import opened Content
  import opened Names

  predicate Listed(e: Slot) { e[0] != 0xe5 && !Special(e) }

  /** The first slot from `at` on that is listed or ends the directory.  */
  function NextSlot(dir: seq<Slot>, at: nat): (k: nat)
    requires at <= |dir|
    ensures at <= k <= |dir| && (Ends(dir, k) || Listed(dir[k])) && (NoEnd(dir, at) ==> NoEnd(dir, k))
    decreases |dir| - at
  {
    if at == |dir| || dir[at][0] == 0 || Listed(dir[at]) then at else NextSlot(dir, at + 1)
  }

  /** The names listed from slot `at` on, in order.  */
  function Entries(dir: seq<Slot>, at: nat): seq<seq<byte>>
    requires at <= |dir|
    decreases |dir| - at
  {
    if at == |dir| || dir[at][0] == 0 then []
    else if Listed(dir[at]) then [Name(dir[at])] + Entries(dir, at + 1)
    else Entries(dir, at + 1)
  }

  /** A zero-terminated string stored at place p of a buffer, which may use the 13
      bytes from there.  */
  predicate StringPut(was: seq<byte>, b: seq<byte>, p: nat, text: seq<byte>) {
    && |b| == |was| && HoldsText(b, p, text + [0])
    && forall k :: 0 <= k < |b| && !(p <= k < p + 13) ==> b[k] == was[k]
  }

  /** The directory does not end before slot k.  */
  predicate NoEnd(dir: seq<Slot>, k: int) {
    forall j :: 0 <= j < k && j < |dir| ==> dir[j][0] != 0
  }

  predicate Ends(dir: seq<Slot>, k: nat)
    requires k <= |dir|
  {
    k == |dir| || dir[k][0] == 0
  }

  lemma {:induction false} EntriesNext(dir: seq<Slot>, at: nat)
    requires at <= |dir|
    ensures var k := NextSlot(dir, at);
            Entries(dir, at) == if Ends(dir, k) then [] else [Name(dir[k])] + Entries(dir, k + 1)
    decreases |dir| - at
  {
    if at < |dir| && dir[at][0] != 0 && !Listed(dir[at]) {
      EntriesNext(dir, at + 1);
    }
  }

  /** A listing gives the names of exactly the files of a volume, each once.  */
  lemma {:induction false} EntriesFrom(dir: seq<Slot>, at: nat)
    requires at <= |dir| && forall j :: 0 <= j < at ==> dir[j][0] != 0
    ensures forall n {:trigger n in Entries(dir, at)} :: n in Entries(dir, at) <==> exists i {:trigger IsFile(dir, i)} :: at <= i && IsFile(dir, i) && Name(dir[i]) == n
    ensures (forall i, j {:trigger IsFile(dir, i), IsFile(dir, j)} :: IsFile(dir, i) && IsFile(dir, j) && Name(dir[i]) == Name(dir[j]) ==> i == j) ==>
              forall a, b :: 0 <= a < b < |Entries(dir, at)| ==> Entries(dir, at)[a] != Entries(dir, at)[b]
    decreases |dir| - at
  {
    hide Name, Special;
    if at < |dir| && dir[at][0] != 0 {
      EntriesFrom(dir, at + 1);
      assert Listed(dir[at]) <==> IsFile(dir, at);
      var es, rest := Entries(dir, at), Entries(dir, at + 1);
      assert forall n :: n in es <==> n in rest || (Listed(dir[at]) && n == Name(dir[at]));
      if Listed(dir[at]) && forall i, j {:trigger IsFile(dir, i), IsFile(dir, j)} :: IsFile(dir, i) && IsFile(dir, j) && Name(dir[i]) == Name(dir[j]) ==> i == j {
        assert forall b :: 0 <= b < |rest| ==> rest[b] in rest;
        assert Name(dir[at]) !in rest;
      }
    } else {
      assert forall i :: at <= i ==> !IsFile(dir, i);
    }
  }

  /** The place in the first cluster at which the root directory starts.  */
  function ListStart(g: Geometry): (s: int)
    ensures 0 <= s < g.ClusterSize()
  {
    (g.rootdir - SECTORSIZE * g.dataregion) % g.ClusterSize()
  }

  /** The variables of an object that has listed the slots before `at`.  `fclust` is
      the cluster of the next sector, counted through the root directory.  */
  ghost predicate ListsAt(g: Geometry, at: int, floc: int, frem: int, bufat: int, bufend: int, fclust: int, filesize: int) {
    var start := ListStart(g);
    var t := start + DIRSIZE * at;
    && 0 <= at <= g.Slots() && filesize == start + g.rootdirend - g.rootdir && frem == filesize - floc
    && (if bufat < bufend then bufat == t % SECTORSIZE && floc == Min(t - bufat + SECTORSIZE, filesize) && bufend == floc - (t - bufat)
        else bufat == bufend && floc == t)
    && (floc % SECTORSIZE == 0 || floc == filesize)
    && (floc < filesize ==> fclust * g.Spc() + g.dataregion + floc / SECTORSIZE % g.Spc() == (g.rootdir + floc - start) / SECTORSIZE)
  }

  lemma StartSectors(g: Geometry)
    requires g.Wf()
    ensures ListStart(g) % SECTORSIZE == 0 && g.rootdir % SECTORSIZE == 0
    ensures (g.rootdirend - g.rootdir) % DIRSIZE == 0 && g.rootdirend - g.rootdir == DIRSIZE * g.Slots()
  {
    var k, q := g.Spc(), g.rootdir / SECTORSIZE - g.dataregion;
    hide Geometry.Spc;
    var c := g.ClusterSize();
    assert c == SECTORSIZE * k && g.rootdir - SECTORSIZE * g.dataregion == SECTORSIZE * q;
    ModSectors(q, k);
  }

  lemma ModSectors(q: int, k: int)
    requires k >= 1
    ensures SECTORSIZE * q % (SECTORSIZE * k) == SECTORSIZE * (q % k)
  {
    var a, r := q / k, q % k;
    assert q == a * k + r;
    assert SECTORSIZE * q == a * (SECTORSIZE * k) + SECTORSIZE * r;
    MulBelow(r, k, SECTORSIZE);
    DivMod(a, SECTORSIZE * k, SECTORSIZE * r);
  }

  /** The number of the next sector, as cluster and sector of the cluster.  */
  lemma NextSector(t: int, k: int)
    requires k >= 1
    ensures (t + 1) % k == if t % k == k - 1 then 0 else t % k + 1
  {
    var a, r := t / k, t % k;
    assert t == a * k + r;
    if r == k - 1 {
      assert t + 1 == (a + 1) * k + 0;
      DivMod(a + 1, k, 0);
    } else {
      DivMod(a, k, r + 1);
    }
  }

  lemma SectorNext(f: int, d: int, t: int, k: int, b: int)
    requires k >= 1 && f * k + d + t % k == b
    ensures (if (t + 1) % k == 0 then f + 1 else f) * k + d + (t + 1) % k == b + 1
  {
    NextSector(t, k);
    assert (f + 1) * k == f * k + k;
  }

  /** Refilling the empty buffer: which block is read, and what the counter of
      clusters has to be then.  */
  lemma ListFill(g: Geometry, at: int, floc: int, frem: int, bufat: int, fclust: int, filesize: int)
    requires g.Wf() && ListsAt(g, at, floc, frem, bufat, bufat, fclust, filesize) && floc < filesize
    ensures 0 <= at < g.Slots() && frem > 0 && fclust * g.Spc() + g.dataregion + floc / SECTORSIZE % g.Spc() == g.SlotBlk(at)
    ensures var n := Min(SECTORSIZE, filesize - floc);
            var fclust' := if (floc + n) / SECTORSIZE % g.Spc() == 0 then fclust + 1 else fclust;
            n > 0 && ListsAt(g, at, floc + n, frem - n, 0, n, fclust', filesize)
  {
    StartSectors(g);
    var n := Min(SECTORSIZE, filesize - floc);
    var start, k, b := ListStart(g), g.Spc(), (g.rootdir + floc - ListStart(g)) / SECTORSIZE;
    SectorNext(fclust, g.dataregion, floc / SECTORSIZE, k, b);
    hide Geometry.Spc, ListStart, Geometry.Wf;
    assert b == g.SlotBlk(at);
    if floc + n < filesize {
      assert (floc + n) / SECTORSIZE == floc / SECTORSIZE + 1;
      assert (g.rootdir + floc + n - start) / SECTORSIZE == b + 1;
    }
  }

  lemma SlotPlaceOf(start: int, at: int)
    requires start % SECTORSIZE == 0 && 0 <= at
    ensures (start + DIRSIZE * at) % SECTORSIZE == at % 16 * DIRSIZE
  {
    var s, q, r := start / SECTORSIZE, at / 16, at % 16;
    assert at == 16 * q + r && start == SECTORSIZE * s;
    SectorOffset(s + q, r);
  }

  lemma SectorOffset(a: int, r: int)
    requires 0 <= r < 16
    ensures (SECTORSIZE * a + DIRSIZE * r) % SECTORSIZE == r * DIRSIZE
  {
    DivMod(a, SECTORSIZE, DIRSIZE * r);
  }

  lemma SlotsLeft(bufat: int, bufend: int, n: int, base: int, size: int)
    requires 0 <= n < 16 && bufat == n * DIRSIZE && (size - base) % DIRSIZE == 0
    requires bufend == Min(SECTORSIZE, size - base) && bufat < bufend
    ensures bufat + DIRSIZE <= bufend
  {
    var m := (size - base) / DIRSIZE;
    assert size - base == DIRSIZE * m;
  }

  lemma StepArith(start: int, at: int, floc: int, bufat: int, bufend: int, size: int)
    requires start % SECTORSIZE == 0 && (size - start) % DIRSIZE == 0 && 0 <= at && bufat < bufend
    requires var t := start + DIRSIZE * at;
             bufat == t % SECTORSIZE && floc == Min(t - bufat + SECTORSIZE, size) && bufend == floc - (t - bufat)
    ensures bufat == at % 16 * DIRSIZE && bufat + DIRSIZE <= bufend <= SECTORSIZE
    ensures start + DIRSIZE * (at + 1) <= size
    ensures var t := start + DIRSIZE * (at + 1);
            if bufat + DIRSIZE < bufend then
              bufat + DIRSIZE == t % SECTORSIZE && (at + 1) / 16 == at / 16
            else bufat + DIRSIZE == bufend && floc == t
  {
    SlotPlaceOf(start, at);
    SlotPlaceOf(start, at + 1);
    var base := start + DIRSIZE * at - bufat;
    SlotsBase(start, at, size);
    SlotsLeft(bufat, bufend, at % 16, base, size);
    SlotAfter(at);
  }

  lemma SlotsBase(start: int, at: int, size: int)
    requires (size - start) % DIRSIZE == 0 && 0 <= at
    ensures (size - (start + DIRSIZE * at - at % 16 * DIRSIZE)) % DIRSIZE == 0
  {
    var m, r := (size - start) / DIRSIZE, at % 16;
    assert size - start == DIRSIZE * m;
    assert size - (start + DIRSIZE * at - r * DIRSIZE) == DIRSIZE * (m - at + r);
  }

  lemma SlotAfter(at: int)
    requires 0 <= at
    ensures if at % 16 == 15 then (at + 1) % 16 == 0 else (at + 1) % 16 == at % 16 + 1 && (at + 1) / 16 == at / 16
  {
  }

  lemma ListStep(g: Geometry, at: int, floc: int, frem: int, bufat: int, bufend: int, fclust: int, filesize: int)
    requires g.Wf() && ListsAt(g, at, floc, frem, bufat, bufend, fclust, filesize) && bufat < bufend
    ensures 0 <= at < g.Slots() && 0 <= bufat <= SECTORSIZE - DIRSIZE && bufat == g.SlotOff(at)
    ensures ListsAt(g, at + 1, floc, frem, bufat + DIRSIZE, bufend, fclust, filesize)
    ensures bufat + DIRSIZE < bufend ==> g.SlotBlk(at + 1) == g.SlotBlk(at)
  {
    StartSectors(g);
    StepArith(ListStart(g), at, floc, bufat, bufend, filesize);
    hide Geometry.Spc, ListStart, Geometry.Wf;
  }

  lemma OpenArith(q: int, k: int)
    requires 0 <= q && 1 <= k
    ensures var off, c := SECTORSIZE * q, SECTORSIZE * k;
            var f := off / c;
            var floc := off - f * c;
            && 0 <= f * c <= off && floc == off % c && floc % SECTORSIZE == 0
            && f * k + floc / SECTORSIZE % k == q
  {
    var off, c := SECTORSIZE * q, SECTORSIZE * k;
    var f := off / c;
    var r := off - f * c;
    assert off == f * c + off % c;
    MulMono(0, f, c);
    ModSectors(q, k);
    assert f * c == SECTORSIZE * (f * k);
    DivMod(0, k, q % k);
  }

  /** What opendir stores, if the root directory does not start before the data
      region as the code counts it.  */
  lemma ListOpen(g: Geometry)
    requires g.Wf() && g.rootdir >= SECTORSIZE * g.dataregion
    ensures var off := g.rootdir - SECTORSIZE * g.dataregion;
            var fclust := off / g.ClusterSize();
            var floc := off - fclust * g.ClusterSize();
            && 0 <= fclust * g.ClusterSize() <= off
            && ListsAt(g, 0, floc, g.rootdirend - g.rootdir, 0, 0, fclust, floc + g.rootdirend - g.rootdir)
  {
    StartSectors(g);
    OpenArith(g.rootdir / SECTORSIZE - g.dataregion, g.Spc());
    hide Geometry.Spc, Geometry.Wf;
  }

  /** What opendir stores, if it does start before that region.  The shift is a
      logical one, so the cluster number is too large by as many clusters as 2^32
      bytes take, and the block that is read next by as many blocks.  */
  lemma ListAway(g: Geometry)
    requires g.Wf() && -0x1_0000_0000 <= g.rootdir - SECTORSIZE * g.dataregion < 0 && g.ClusterSize() <= 0x8000_0000
    ensures var off := g.rootdir - SECTORSIZE * g.dataregion;
            var fclust := off % 0x1_0000_0000 / g.ClusterSize();
            var floc := Long((off - fclust * g.ClusterSize()) % 0x1_0000_0000);
            && fclust * g.Spc() + g.dataregion + floc / SECTORSIZE % g.Spc() == g.SlotBlk(0) + 0x80_0000
            && !ListsAt(g, 0, floc, g.rootdirend - g.rootdir, 0, 0, fclust, floc + g.rootdirend - g.rootdir)
  {
    StartSectors(g);
    hide Geometry.Spc, Long;
    var off := g.rootdir - SECTORSIZE * g.dataregion;
    AwayArith(off, g.rootdir / SECTORSIZE - g.dataregion, g.Spc());
    var fclust := off % 0x1_0000_0000 / g.ClusterSize();
    var floc := Long((off - fclust * g.ClusterSize()) % 0x1_0000_0000);
    assert g.rootdir < g.rootdirend;
    hide Geometry.Wf;
    AwayLists(g, floc, fclust);
  }

  lemma AwayLists(g: Geometry, floc: int, fclust: int)
    requires g.rootdir < g.rootdirend
    requires fclust * g.Spc() + g.dataregion + floc / SECTORSIZE % g.Spc() == g.SlotBlk(0) + 0x80_0000
    ensures !ListsAt(g, 0, floc, g.rootdirend - g.rootdir, 0, 0, fclust, floc + g.rootdirend - g.rootdir)
  {
    hide Geometry.Spc, ListStart;
  }

  lemma AwayArith(off: int, q: int, k: int)
    requires off == SECTORSIZE * q && -0x1_0000_0000 <= off < 0 && 1 <= k && SECTORSIZE * k <= 0x8000_0000
    ensures var c := SECTORSIZE * k;
            var fclust := off % 0x1_0000_0000 / c;
            var floc := Long((off - fclust * c) % 0x1_0000_0000);
            fclust * k + floc / SECTORSIZE % k == q + 0x80_0000
  {
    var c, u := SECTORSIZE * k, off + 0x1_0000_0000;
    OpenArith(q + 0x80_0000, k);
    UpBy32(off, u);
    var p := u / c * c;
    assert 0 <= u % c < c;
    UpBy32(off - p, u - p);
  }

  lemma UpBy32(x: int, y: int)
    requires y == x + 0x1_0000_0000 && 0 <= y < 0x1_0000_0000
    ensures x % 0x1_0000_0000 == y && (y < 0x8000_0000 ==> Long(y) == y)
  {
  }

  /** In the other case no bit is lost.  */
  lemma OpenSigned(off: int, c: int)
    requires 0 <= off < 0x1_0000_0000 && 0 < c && (off < 0x8000_0000 || c <= 0x8000_0000)
    ensures off % 0x1_0000_0000 / c == off / c
    ensures 0 <= off / c * c <= off ==> Long((off - off / c * c) % 0x1_0000_0000) == off - off / c * c
  {
    var p := off / c * c;
    assert off - p == off % c;
    if 0 <= p {
      UpBy32(off - p - 0x1_0000_0000, off - p);
    }
  }
}
