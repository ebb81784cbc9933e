/** The search for a free cluster: sector after sector of the FAT, from the one of the
    last cluster on, and from the start again.  */
module FreeSearch {
  import opened Bytes
  import opened Arith
  import opened Layout
  import opened Fat
  import opened Content
  import opened Cache

  predicate PageClean(g: Geometry, fat: seq<int>, from: int, to: int)
    requires |fat| == g.totclusters
  {
    forall c :: 2 <= c < g.totclusters && from <= c < to ==> fat[c] != 0
  }

  /** `c` is the lowest free cluster in the sector that starts with `start`.  */
  predicate FirstFree(g: Geometry, fat: seq<int>, start: int, c: int)
    requires |fat| == g.totclusters
  {
    && 2 <= c < g.totclusters && start <= c < start + g.PerSector()
    && fat[c] == 0 && PageClean(g, fat, start, c)
  }

  /** The start of the FAT sector looked at in round k of a search that starts at
      `start`: sector after sector, from the end on to the first one.  */
  function PageOf(g: Geometry, start: int, k: nat): (s: int)
    requires 0 <= start < g.totclusters && g.IsPage(start)
    ensures 0 <= s < g.totclusters && g.IsPage(s)
  {
    if k == 0 then start
    else
      var s := PageOf(g, start, k - 1) + g.PerSector();
      if s >= g.totclusters then 0 else s
  }

  predicate PageHit(g: Geometry, fat: seq<int>, start: int, k: nat)
    requires |fat| == g.totclusters && 0 <= start < g.totclusters && g.IsPage(start)
  {
    !PageClean(g, fat, PageOf(g, start, k), PageOf(g, start, k) + g.PerSector())
  }

  predicate NoHitBefore(g: Geometry, fat: seq<int>, start: int, rounds: nat)
    requires |fat| == g.totclusters && 0 <= start < g.totclusters && g.IsPage(start)
  {
    forall k :: 0 <= k < rounds ==> !PageHit(g, fat, start, k)
  }

  lemma NoHitNext(g: Geometry, fat: seq<int>, start: int, rounds: nat, last: nat)
    requires |fat| == g.totclusters && 0 <= start < g.totclusters && g.IsPage(start)
    requires NoHitBefore(g, fat, start, rounds) && !PageHit(g, fat, start, rounds)
    requires PageHit(g, fat, start, last) && rounds <= last
    ensures NoHitBefore(g, fat, start, rounds + 1) && rounds < last
  {
  }

  /** Round k reaches the sector of any cluster behind the start, and the wrapped
      search the sector of any cluster before it.  */
  lemma {:induction false} PageAhead(g: Geometry, start: int, c: int) returns (k: nat)
    requires 0 <= start < g.totclusters && g.IsPage(start) && start <= c < g.totclusters
    ensures PageOf(g, start, k) <= c < PageOf(g, start, k) + g.PerSector()
    decreases c
  {
    if c < start + g.PerSector() {
      k := 0;
    } else {
      var j := PageAhead(g, start, c - g.PerSector());
      k := j + 1;
    }
  }

  lemma {:induction false} PageSum(g: Geometry, start: int, j: nat, k: nat)
    requires 0 <= start < g.totclusters && g.IsPage(start)
    ensures PageOf(g, PageOf(g, start, j), k) == PageOf(g, start, j + k)
    decreases k
  {
    if k > 0 {
      PageSum(g, start, j, k - 1);
    }
  }

  lemma PageReached(g: Geometry, start: int, c: int) returns (k: nat)
    requires 0 <= start < g.totclusters && g.IsPage(start) && 0 <= c < g.totclusters
    ensures PageOf(g, start, k) <= c < PageOf(g, start, k) + g.PerSector()
  {
    if start <= c {
      k := PageAhead(g, start, c);
    } else {
      var j := PageAhead(g, start, g.totclusters - 1);
      assert PageOf(g, start, j + 1) == 0;
      var i := PageAhead(g, 0, c);
      PageSum(g, start, j + 1, i);
      k := j + 1 + i;
    }
  }

  /** The search comes to an end exactly if some cluster is free; on a full disk
      no round ever finds one, and the test that was to stop the loop looks at
      the byte count, which is positive.  */
  lemma SearchEnds(g: Geometry, fat: seq<int>, start: int)
    requires |fat| == g.totclusters && 0 <= start < g.totclusters && g.IsPage(start)
    ensures (exists k: nat :: PageHit(g, fat, start, k)) <==> FreeSet(g, fat) != {}
  {
    if FreeSet(g, fat) != {} {
      var c :| c in FreeSet(g, fat);
      var k := PageReached(g, start, c);
      assert PageHit(g, fat, start, k);
    } else {
      forall c | 2 <= c < g.totclusters
        ensures fat[c] != 0
      {
        assert c !in FreeSet(g, fat);
      }
    }
  }

  lemma PagePlace(g: Geometry, start: int, c: int)
    requires g.Wf() && 0 <= start <= c < start + g.PerSector() && g.IsPage(start)
    ensures g.FatBlk(c) == g.FatBlk(start) && g.FatAddr(c) == g.FatAddr(start) + g.FatOff(c)
  {
  }

  /** The k-th entry of the FAT sector that starts with cluster `start`.  */
  lemma PageEntry(g: Geometry, d: Disk, start: int, k: int)
    requires Holds(g, d) && 0 <= start < g.totclusters && g.IsPage(start) && 0 <= k < g.PerSector()
    requires 0 <= g.FatBlk(start) < |d|
    ensures 0 <= g.Shifted(k) <= SECTORSIZE - g.EntrySize() && g.Shifted(k) / g.EntrySize() == k
    ensures g.FatBlk(start + k) == g.FatBlk(start) && g.FatOff(start + k) == g.Shifted(k)
    ensures start + k < g.totclusters ==>
              MetaOf(g, d).fat[start + k] == GetClust(g.filesystem, d[g.FatBlk(start)], g.Shifted(k))
    ensures GetClust(g.filesystem, d[g.FatBlk(start)], g.Shifted(k)) == 0 ==> d[g.FatBlk(start)][g.Shifted(k)] == 0
  {
  }

  /** What an entry of 0, or another one, says when all before it are not 0.  */
  lemma ScanEntry(g: Geometry, d: Disk, start: int, k: int)
    requires Holds(g, d) && 0 <= start < g.totclusters && g.IsPage(start) && 0 <= k < g.PerSector()
    requires 0 <= g.FatBlk(start) < |d| && 0 <= g.Shifted(k) <= SECTORSIZE - g.EntrySize()
    requires MetaOf(g, d).fat[0] != 0 && MetaOf(g, d).fat[1] != 0
    requires PageClean(g, MetaOf(g, d).fat, start, start + k)
    ensures var fat, v := MetaOf(g, d).fat, GetClust(g.filesystem, d[g.FatBlk(start)], g.Shifted(k));
            && (v != 0 ==> PageClean(g, fat, start, start + k + 1))
            && (v == 0 && start + k < g.totclusters ==> FirstFree(g, fat, start, start + k))
            && (start + k >= g.totclusters ==> PageClean(g, fat, start, start + g.PerSector()))
  {
    PageEntry(g, d, start, k);
  }
}
