/** What each step of an operation keeps of a consistent volume.  */
module Updates {
  import opened Bytes
  import opened Arith
  import opened Layout
  import opened Fat
  import opened Content

  /** A cluster that nothing leads to is in no chain.  */
  lemma UnlinkedOutside(g: Geometry, m: Meta, ch: map<int, seq<int>>, w: int, c: int, i: int)
    requires g.Wf() && Consistent(g, m, ch, w) && Unlinked(g, m, c) && i in ch
    ensures c !in ch[i]
  {
    hide Fits, Sound, IsChain, Live, Special, Name, First, Points;
    FilePoints(m.dir, i);
    if c in ch[i] {
      var k :| 0 <= k < |ch[i]| && ch[i][k] == c;
      ChainPtr(g, m, i, ch[i], k);
    }
  }

  /** A chain does not notice a change of an entry outside it.  */
  lemma ChainFrame(g: Geometry, fat: seq<int>, first: int, cl: seq<int>, c: int, v: int)
    requires g.Wf() && |fat| == g.totclusters && 0 <= c < g.totclusters
    requires IsChain(g, fat, first, cl) && c !in cl
    ensures IsChain(g, fat[c := v], first, cl)
  {
    forall k {:trigger Linked(fat[c := v], cl, k)} | 0 <= k < |cl| - 1
      ensures Linked(fat[c := v], cl, k)
    {
      assert Linked(fat, cl, k);
    }
  }

  /** Changing a FAT entry that no chain contains.  */
  lemma OutsideKeeps(g: Geometry, m: Meta, ch: map<int, seq<int>>, w: int, c: int, v: int)
    requires g.Wf() && Consistent(g, m, ch, w) && 2 <= c < g.totclusters
    requires Sound(g, m.(fat := m.fat[c := v])) && (c == g.rootcluster ==> v != 0)
    requires forall i :: i in ch ==> c !in ch[i]
    ensures Consistent(g, m.(fat := m.fat[c := v]), ch, w)
  {
    hide Fits, Sound, Live, Special, Name, First, IsChain;
    forall i | i in ch
      ensures IsChain(g, m.fat[c := v], First(g, m.dir[i]), ch[i])
    {
      ChainFrame(g, m.fat, First(g, m.dir[i]), ch[i], c, v);
    }
  }

  /** Allocation, first half: a free cluster becomes an end of chain.  */
  lemma MarkKeeps(g: Geometry, m: Meta, ch: map<int, seq<int>>, w: int, c: int, v: int)
    requires g.Wf() && Consistent(g, m, ch, w) && 2 <= c < g.totclusters && m.fat[c] == 0 && v >= g.EndOfChain()
    ensures Consistent(g, m.(fat := m.fat[c := v]), ch, w)
    ensures Unlinked(g, m.(fat := m.fat[c := v]), c)
    ensures g.IsData(c)
    ensures forall i :: i in ch ==> c !in ch[i]
  {
    hide Fits, Sound, Live, Special, Name, First, IsChain, Unlinked;
    FreeIsUnlinked(g, m, c);
    forall i | i in ch
      ensures c !in ch[i]
    {
      UnlinkedOutside(g, m, ch, w, c, i);
    }
    MarkKeepsSound(g, m, c, v);
    OutsideKeeps(g, m, ch, w, c, v);
  }

  lemma ChainExtend(g: Geometry, fat: seq<int>, first: int, cl: seq<int>, c: int)
    requires g.Wf() && |fat| == g.totclusters && IsChain(g, fat, first, cl) && cl != []
    requires g.IsData(c) && c !in cl && fat[c] >= g.EndOfChain() && Distinct(cl)
    ensures IsChain(g, fat[cl[|cl| - 1] := c], first, cl + [c])
  {
    var last := cl[|cl| - 1];
    var cl', fat' := cl + [c], fat[last := c];
    forall k {:trigger Linked(fat', cl', k)} | 0 <= k < |cl'| - 1
      ensures Linked(fat', cl', k)
    {
      if k < |cl| - 1 {
        assert Linked(fat, cl, k);
      }
    }
  }

  lemma ChainDistinct(g: Geometry, m: Meta, ch: map<int, seq<int>>, w: int, i: int)
    requires g.Wf() && Consistent(g, m, ch, w) && i in ch
    ensures Distinct(ch[i]) && AllData(g, ch[i])
  {
    hide Fits, Sound, Live, Special, Name, First;
    forall a, b | 0 <= a < b < |ch[i]|
      ensures ch[i][a] != ch[i][b]
    {
      if ch[i][a] == ch[i][b] {
        FilesApart(g, m, ch, w, i, a, i, b);
      }
    }
  }

  /** Allocation, second half, for a file that has clusters: the new one is linked
      behind the last.  */
  lemma LinkKeeps(g: Geometry, m: Meta, ch: map<int, seq<int>>, w: int, c: int)
    requires g.Wf() && Consistent(g, m, ch, w) && w in ch && ch[w] != []
    requires g.IsData(c) && m.fat[c] >= g.EndOfChain() && Unlinked(g, m, c)
    requires forall i :: i in ch ==> c !in ch[i]
    ensures Consistent(g, m.(fat := m.fat[ch[w][|ch[w]| - 1] := c]), ch[w := ch[w] + [c]], w)
  {
    hide Fits, Sound, Unlinked, Live, Special, Name, First, AllData;
    var last := ch[w][|ch[w]| - 1];
    ChainStep(g, m.fat, First(g, m.dir[w]), ch[w], |ch[w]| - 1);
    LinkKeepsSound(g, m, last, c);
    ChainDistinct(g, m, ch, w, w);
    ChainExtend(g, m.fat, First(g, m.dir[w]), ch[w], c);
    forall i | i in ch && i != w
      ensures IsChain(g, m.fat[last := c], First(g, m.dir[i]), ch[i])
    {
      if last in ch[i] {
        var k :| 0 <= k < |ch[i]| && ch[i][k] == last;
        FilesApart(g, m, ch, w, i, k, w, |ch[w]| - 1);
      }
      ChainFrame(g, m.fat, First(g, m.dir[i]), ch[i], last, c);
    }
  }

  /** Replacing the slot of a file without touching name, attributes or
      liveness.  */
  lemma SlotKeeps(g: Geometry, m: Meta, ch: map<int, seq<int>>, w: int, i: int, e: Slot, cl: seq<int>, w': int)
    requires g.Wf() && Consistent(g, m, ch, w) && i in ch
    requires Name(e) == Name(m.dir[i]) && e[11] == m.dir[i][11]
    requires Sound(g, m.(dir := m.dir[i := e])) && IsChain(g, m.fat, First(g, e), cl)
    requires w == -1 || w == i
    requires w' == i || (w' == -1 && Fits(g, |cl|, Size(e)))
    ensures Consistent(g, m.(dir := m.dir[i := e]), ch[i := cl], w')
  {
    hide Fits, Sound, IsChain, First, Geometry.Wf;
    assert IsFile(m.dir, i);
    assert e[0] == Name(e)[0] == Name(m.dir[i])[0] == m.dir[i][0];
    LiveAfterSlot(m.dir, i, e);
    var dir' := m.dir[i := e];
    forall j
      ensures j in ch[i := cl] <==> IsFile(dir', j)
    {
      assert j in ch <==> IsFile(m.dir, j);
      assert Live(dir', j) <==> Live(m.dir, j);
    }
  }

  /** Allocation, second half, for a file without clusters: its slot points at
      the new one.  */
  lemma SlotLinkKeeps(g: Geometry, m: Meta, ch: map<int, seq<int>>, w: int, e: Slot, c: int)
    requires g.Wf() && Consistent(g, m, ch, w) && w in ch
    requires Name(e) == Name(m.dir[w]) && e[11] == m.dir[w][11] && First(g, e) == c
    requires g.IsData(c) && m.fat[c] >= g.EndOfChain() && Unlinked(g, m, c)
    ensures Consistent(g, m.(dir := m.dir[w := e]), ch[w := [c]], w)
  {
    hide Fits, Sound, Unlinked;
    assert IsFile(m.dir, w);
    assert e[0] == Name(e)[0] == Name(m.dir[w])[0] == m.dir[w][0];
    SlotLinkKeepsSound(g, m, w, e);
    SlotKeeps(g, m, ch, w, w, e, [c], w);
  }

  /** Storing a size changes no pointer.  */
  lemma SizeKeeps(g: Geometry, m: Meta, ch: map<int, seq<int>>, w: int, i: int, e: Slot, w': int)
    requires g.Wf() && Consistent(g, m, ch, w) && i in ch
    requires Name(e) == Name(m.dir[i]) && e[11] == m.dir[i][11] && First(g, e) == First(g, m.dir[i])
    requires w == -1 || w == i
    requires w' == i || (w' == -1 && Fits(g, |ch[i]|, Size(e)))
    ensures Consistent(g, m.(dir := m.dir[i := e]), ch, w')
  {
    hide Fits, Sound, IsChain, Size;
    assert IsFile(m.dir, i);
    assert e[0] == Name(e)[0] == Name(m.dir[i])[0] == m.dir[i][0];
    SlotShrinkKeepsSound(g, m, i, e);
    SlotKeeps(g, m, ch, w, i, e, ch[i], w');
    assert ch[i := ch[i]] == ch;
  }

  lemma EmptyChain(g: Geometry, fat: seq<int>)
    requires |fat| == g.totclusters
    ensures IsChain(g, fat, 0, []) && Fits(g, 0, 0)
  {
  }

  /** Truncation: the slot loses its chain, which becomes unlinked.  */
  lemma TruncateKeeps(g: Geometry, m: Meta, ch: map<int, seq<int>>, i: int, e: Slot)
    requires g.Wf() && Consistent(g, m, ch, -1) && i in ch
    requires Name(e) == Name(m.dir[i]) && e[11] == m.dir[i][11] && First(g, e) == 0 && Size(e) == 0
    ensures Consistent(g, m.(dir := m.dir[i := e]), ch[i := []], -1)
    ensures ch[i] != [] ==> Unlinked(g, m.(dir := m.dir[i := e]), ch[i][0])
  {
    EmptyChain(g, m.fat);
    hide Fits, Sound, Unlinked, IsChain, First, Size, Geometry.Wf;
    FilePoints(m.dir, i);
    assert e[0] == Name(e)[0] == Name(m.dir[i])[0] == m.dir[i][0];
    SlotShrinkKeepsSound(g, m, i, e);
    SlotKeeps(g, m, ch, -1, i, e, [], -1);
    LiveAfterSlot(m.dir, i, e);
    if ch[i] != [] {
      ChainPtr(g, m, i, ch[i], 0);
      UnlinkAfter(g, m, i, e);
    }
  }

  /** After its slot stops pointing at it, nothing leads to a first cluster.  */
  lemma UnlinkAfter(g: Geometry, m: Meta, i: int, e: Slot)
    requires g.Wf() && Sound(g, m) && DirPtr(g, m, i) && e[0] != 0
    requires First(g, e) == 0 || e[0] == 0xe5
    ensures Unlinked(g, m.(dir := m.dir[i := e]), First(g, m.dir[i]))
  {
    var m' := m.(dir := m.dir[i := e]);
    LiveAfterSlot(m.dir, i, e);
    assert forall x :: FatPtr(g, m', x) <==> FatPtr(g, m, x);
    forall j | DirPtr(g, m', j)
      ensures First(g, m'.dir[j]) != First(g, m.dir[i])
    {
      assert j != i;
      assert DirPtr(g, m, j);
    }
  }

  /** Deletion: the slot is marked, its chain becomes unlinked.  */
  lemma DeleteKeeps(g: Geometry, m: Meta, ch: map<int, seq<int>>, i: int, e: Slot)
    requires g.Wf() && Consistent(g, m, ch, -1) && i in ch && e[0] == 0xe5
    ensures Consistent(g, m.(dir := m.dir[i := e]), ch - {i}, -1)
    ensures ch[i] != [] ==> Unlinked(g, m.(dir := m.dir[i := e]), ch[i][0])
  {
    hide Fits, Sound, IsChain, Unlinked, First, Name, Geometry.Wf;
    FilePoints(m.dir, i);
    var dir' := m.dir[i := e];
    LiveAfterSlot(m.dir, i, e);
    SlotShrinkKeepsSound(g, m, i, e);
    forall j
      ensures j in ch - {i} <==> IsFile(dir', j)
    {
      assert j in ch <==> IsFile(m.dir, j);
    }
    if ch[i] != [] {
      ChainPtr(g, m, i, ch[i], 0);
      UnlinkAfter(g, m, i, e);
    }
  }

  /** One round of freeing.  */
  lemma ZeroKeeps(g: Geometry, m: Meta, ch: map<int, seq<int>>, w: int, c: int)
    requires g.Wf() && Consistent(g, m, ch, w) && g.IsData(c) && Unlinked(g, m, c)
    ensures Consistent(g, m.(fat := m.fat[c := 0]), ch, w)
    ensures 2 <= m.fat[c] < g.totclusters ==> Unlinked(g, m.(fat := m.fat[c := 0]), m.fat[c])
  {
    ZeroKeepsSound(g, m, c);
    forall i | i in ch
      ensures c !in ch[i]
    {
      UnlinkedOutside(g, m, ch, w, c, i);
    }
    OutsideKeeps(g, m, ch, w, c, 0);
  }

  /** Freeing a whole unlinked chain.  */
  lemma {:induction false} FreeKeeps(g: Geometry, m: Meta, ch: map<int, seq<int>>, w: int, first: int, cl: seq<int>)
    requires g.Wf() && Consistent(g, m, ch, w) && IsWalk(g, m.fat, first, cl) && AllData(g, cl)
    requires cl != [] ==> Unlinked(g, m, cl[0])
    ensures Consistent(g, m.(fat := Zeroed(m.fat, cl)), ch, w)
    decreases |cl|
  {
    if cl == [] {
      assert Zeroed(m.fat, cl) == m.fat;
    } else {
      ZeroKeeps(g, m, ch, w, first);
      WalkTail(g, m.fat, first, cl);
      var m' := m.(fat := m.fat[first := 0]);
      FreeKeeps(g, m', ch, w, m.fat[first], cl[1..]);
    }
  }

  /** The tables once cluster `c` is marked.  */
  function Marked(g: Geometry, m: Meta, c: int): (m': Meta)
    requires 0 <= c < |m.fat|
  {
    m.(fat := m.fat[c := g.EndOfChain() + 0xf])
  }

  /** A slot with its first cluster and size stored.  */
  function FirstStored(g: Geometry, e: Slot, c: int, size: int): Slot {
    var e' := Put32(Put16(e, 0x1a, c), 0x1c, size);
    if g.filesystem == 2 then Put16(e', 0x14, c / 0x1_0000) else e'
  }

  /** The tables once cluster `c` is marked and linked behind chain `cl`.  */
  function Allocated(g: Geometry, m: Meta, slot: int, cl: seq<int>, c: int, size: int): (m': Meta)
    requires 0 <= c < |m.fat| && 0 <= slot < |m.dir|
    requires cl != [] ==> 0 <= cl[|cl| - 1] < |m.fat|
  {
    var m' := Marked(g, m, c);
    if cl == [] then m'.(dir := m'.dir[slot := FirstStored(g, m'.dir[slot], c, size)])
    else m'.(fat := m'.fat[cl[|cl| - 1] := c])
  }

  lemma FirstStoredFields(g: Geometry, e: Slot, c: int, size: int)
    requires 0 <= c < 0x1_0000 || (g.filesystem == 2 && 0 <= c < 0x1000_0000)
    requires 0 <= size < 0x8000_0000
    ensures var e' := FirstStored(g, e, c, size);
            First(g, e') == c && Size(e') == size && Name(e') == Name(e) && e'[11] == e[11]
  {
    var e1 := Put16(e, 0x1a, c);
    var e2 := Put32(e1, 0x1c, size);
    assert Le16(e2, 0x1a) == Le16(e1, 0x1a);
    assert Size(e2) == size;
    assert Name(e2) == Name(e);
    if g.filesystem == 2 {
      var e3 := Put16(e2, 0x14, c / 0x1_0000);
      assert Le16(e3, 0x1a) == Le16(e2, 0x1a);
      assert Le32(e3, 0x1c) == Le32(e2, 0x1c);
      assert Name(e3) == Name(e);
    }
  }

  /** Allocation: the file in slot `slot` owns one cluster more, which was free;
      no other entry, chain or slot changes, and no cluster gets lost.  */
  lemma AllocKeeps(g: Geometry, m: Meta, ch: map<int, seq<int>>, slot: int, c: int, size: int)
    requires g.Wf() && Consistent(g, m, ch, slot) && slot in ch
    requires 2 <= c < g.totclusters && m.fat[c] == 0 && 0 <= size < 0x8000_0000
    ensures 0 <= slot < |m.dir| && (ch[slot] != [] ==> 0 <= ch[slot][|ch[slot]| - 1] < |m.fat|)
    ensures Sound(g, Marked(g, m, c)) && g.IsData(c)
    ensures var m' := Allocated(g, m, slot, ch[slot], c, size);
            var ch' := ch[slot := ch[slot] + [c]];
            && Consistent(g, m', ch', slot)
            && c in FreeSet(g, m.fat) && FreeSet(g, m'.fat) == FreeSet(g, m.fat) - {c}
            && Pool(g, m', ch') == Pool(g, m, ch)
            && |m'.dir| == |m.dir|
            && Name(m'.dir[slot]) == Name(m.dir[slot]) && m'.dir[slot][11] == m.dir[slot][11]
            && forall i :: 0 <= i < |m.dir| && i != slot ==> m'.dir[i] == m.dir[i]
  {
    hide Fits, Sound, First, FirstStored, IsChain, Unlinked, Pool, FreeSet, Special;
    var cl := ch[slot];
    assert IsFile(m.dir, slot);
    var m1 := Marked(g, m, c);
    MarkKeeps(g, m, ch, slot, c, g.EndOfChain() + 0xf);
    if cl == [] {
      FirstStoredFields(g, m.dir[slot], c, size);
      SlotLinkKeeps(g, m1, ch, slot, FirstStored(g, m.dir[slot], c, size), c);
      assert cl + [c] == [c];
    } else {
      ChainStep(g, m.fat, First(g, m.dir[slot]), cl, |cl| - 1);
      LinkKeeps(g, m1, ch, slot, c);
    }
    PoolAfterAlloc(g, m, ch, slot, c, size);
  }

  lemma PoolAfterAlloc(g: Geometry, m: Meta, ch: map<int, seq<int>>, slot: int, c: int, size: int)
    requires g.Wf() && |m.fat| == g.totclusters && slot in ch && 0 <= slot < |m.dir|
    requires 2 <= c < g.totclusters && m.fat[c] == 0
    requires ch[slot] != [] ==> 0 <= ch[slot][|ch[slot]| - 1] < |m.fat| && m.fat[ch[slot][|ch[slot]| - 1]] != 0
    ensures var m' := Allocated(g, m, slot, ch[slot], c, size);
            var ch' := ch[slot := ch[slot] + [c]];
            c in FreeSet(g, m.fat) && FreeSet(g, m'.fat) == FreeSet(g, m.fat) - {c} && Pool(g, m', ch') == Pool(g, m, ch)
  {
    var cl := ch[slot];
    var m', ch' := Allocated(g, m, slot, cl, c, size), ch[slot := cl + [c]];
    assert c in ch'[slot];
    forall x | 2 <= x < g.totclusters
      ensures m'.fat[x] == 0 <==> m.fat[x] == 0 && x != c
      ensures x != c ==> (Owned(ch', x) <==> Owned(ch, x))
    {
      if x != c && Owned(ch, x) {
        var i :| i in ch && x in ch[i];
        assert i in ch' && x in ch'[i];
      }
      if x != c && Owned(ch', x) {
        var i :| i in ch' && x in ch'[i];
        assert i in ch && x in ch[i];
      }
    }
    assert Owned(ch', c);
  }

  lemma SizeStoredFields(g: Geometry, e: Slot, size: int)
    requires 0 <= size < 0x8000_0000
    ensures var e' := Put32(e, 0x1c, size);
            First(g, e') == First(g, e) && Size(e') == size && Name(e') == Name(e) && e'[11] == e[11]
  {
    assert Name(Put32(e, 0x1c, size)) == Name(e);
  }

  /** The chain of a file is a walk, so freeing it succeeds.  */
  lemma ChainWalk(g: Geometry, m: Meta, ch: map<int, seq<int>>, w: int, i: int)
    requires g.Wf() && Consistent(g, m, ch, w) && i in ch && ch[i] != []
    ensures IsWalk(g, m.fat, First(g, m.dir[i]), ch[i]) && AllData(g, ch[i])
  {
    hide Fits, Sound, First, Name, IsFile;
    ChainDistinct(g, m, ch, w, i);
  }

  lemma {:induction false} ZeroedCount(g: Geometry, fat: seq<int>, first: int, cl: seq<int>)
    requires g.Wf() && |fat| == g.totclusters && IsWalk(g, fat, first, cl)
    ensures |FreeSet(g, Zeroed(fat, cl))| == |FreeSet(g, fat)| + |cl|
    decreases |cl|
  {
    if cl == [] {
      assert Zeroed(fat, cl) == fat;
    } else {
      WalkTail(g, fat, first, cl);
      ZeroedCount(g, fat[first := 0], fat[first], cl[1..]);
      assert FreeSet(g, fat[first := 0]) == FreeSet(g, fat) + {first};
    }
  }

  /** What freeing the chain `cl` from `first` on does to the tables `m`.  */
  lemma FreedKeeps(g: Geometry, m: Meta, ch: map<int, seq<int>>, first: int, cl: seq<int>)
    requires g.Wf() && Consistent(g, m, ch, -1) && AllData(g, cl)
    requires if cl == [] then first >= g.EndOfChain() else IsWalk(g, m.fat, first, cl) && Unlinked(g, m, cl[0])
    ensures FreeChain(g, m.fat, first) == (Zeroed(m.fat, cl), Done)
    ensures Sound(g, m) && (2 <= first < g.totclusters ==> Unlinked(g, m, first))
    ensures Consistent(g, m.(fat := Zeroed(m.fat, cl)), ch, -1)
    ensures |FreeSet(g, Zeroed(m.fat, cl))| == |FreeSet(g, m.fat)| + |cl|
  {
    hide Unlinked, Sound, FreeSet;
    FreeWalk(g, m.fat, first, cl);
    FreeKeeps(g, m, ch, -1, first, cl);
    ZeroedCount(g, m.fat, first, cl);
    hide Consistent, IsWalk;
  }

  /** A chain that its file gives up goes back to the pool.  */
  lemma PoolAfterFree(g: Geometry, m: Meta, ch: map<int, seq<int>>, i: int, m': Meta, ch': map<int, seq<int>>)
    requires |m.fat| == |m'.fat| == g.totclusters && i in ch && m'.fat == Zeroed(m.fat, ch[i])
    requires ch' == ch - {i} || ch' == ch[i := []]
    ensures Pool(g, m', ch') == Pool(g, m, ch)
  {
    forall x | 2 <= x < g.totclusters
      ensures m'.fat[x] == 0 || Owned(ch', x) <==> m.fat[x] == 0 || Owned(ch, x)
    {
      if Owned(ch', x) {
        var j :| j in ch' && x in ch'[j];
        assert j in ch && x in ch[j];
      }
      if Owned(ch, x) && x !in ch[i] {
        var j :| j in ch && x in ch[j];
        assert j in ch' && x in ch'[j];
      }
    }
  }

  /** `if (fclust) freeclusters(fclust)` */
  ghost function GivenUp(g: Geometry, fat: seq<int>, first: int): (r: seq<int>)
    requires |fat| == g.totclusters
    ensures |r| == |fat|
  {
    if first == 0 then fat else FreeChain(g, fat, first).0
  }

  /** The tables after popen mode "d" has found slot k, whatever it records.  */
  ghost function DeletedTables(g: Geometry, m: Meta, k: int): Meta
    requires |m.fat| == g.totclusters && 0 <= k < |m.dir|
  {
    Meta(GivenUp(g, m.fat, First(g, m.dir[k])), m.dir[k := Put16(m.dir[k], 0, 0xe5)])
  }

  lemma DeletedFields(e: Slot)
    ensures Put16(e, 0, 0xe5)[0] == 0xe5
  {
  }

  /** What popen mode "w" leaves of the slot of a file.  */
  function TruncatedSlot(e: Slot): Slot {
    Put32(Put16(Put16(e, 0x1a, 0), 0x14, 0), 0x1c, 0)
  }

  lemma TruncatedFields(g: Geometry, e: Slot)
    ensures var e' := TruncatedSlot(e);
            First(g, e') == 0 && Size(e') == 0 && Name(e') == Name(e) && e'[11] == e[11]
  {
    var a := Put16(e, 0x1a, 0);
    var b := Put16(a, 0x14, 0);
    var c := Put32(b, 0x1c, 0);
    assert Le16(b, 0x1a) == Le16(a, 0x1a) == 0;
    assert Le16(c, 0x1a) == Le16(b, 0x1a) && Le16(c, 0x14) == Le16(b, 0x14) == 0;
    assert Name(c) == Name(e);
  }

  // --------------------------------------------------------------- creation

  /** The slot of a new file: its name, no attributes, no cluster, no bytes, and
      twice the current time.  */
  function FreshSlot(name: seq<byte>, pdate: int): Slot
    requires |name| == 11
  {
    Put32(Put32(Put16(Blank(name), 0x14, 0), 0xe, pdate), 0x16, pdate)
  }

  lemma FreshFields(g: Geometry, name: seq<byte>, pdate: int)
    requires |name| == 11
    ensures var e := FreshSlot(name, pdate);
            First(g, e) == 0 && Size(e) == 0 && Name(e) == name && e[11] == 0 && e[0] == name[0]
  {
    var a := Blank(name);
    var b := Put16(a, 0x14, 0);
    var c := Put32(b, 0xe, pdate);
    var e := Put32(c, 0x16, pdate);
    assert Le16(e, 0x1a) == Le16(c, 0x1a) == Le16(b, 0x1a) == Le16(a, 0x1a) == 0;
    assert Le16(e, 0x14) == Le16(c, 0x14) == Le16(b, 0x14) == 0;
    assert e[0x1c] == 0 && e[0x1d] == 0 && e[0x1e] == 0 && e[0x1f] == 0;
    assert Name(e) == name;
  }

  /** Slot f was vacant and nothing before it is the end; if it was the end itself,
      the slot behind it, if there is one, now is.  */
  ghost predicate Created(dir: seq<Slot>, dir': seq<Slot>, f: int, e: Slot) {
    && 0 <= f < |dir| == |dir'| && dir'[f] == e
    && (forall j :: 0 <= j < f ==> dir[j][0] != 0)
    && (forall j :: 0 <= j < |dir| && j != f && !(dir[f][0] == 0 && j == f + 1) ==> dir'[j] == dir[j])
    && (if dir[f][0] == 0 then f + 1 < |dir| ==> dir'[f + 1][0] == 0 else dir[f][0] == 0xe5)
  }

  /** The new slot becomes live and no other changes.  */
  lemma CreatedLive(dir: seq<Slot>, dir': seq<Slot>, f: int, e: Slot)
    requires Created(dir, dir', f, e) && e[0] != 0 && e[0] != 0xe5
    ensures Live(dir', f) && !Live(dir, f)
    ensures forall j :: j != f ==> (Live(dir', j) <==> Live(dir, j))
    ensures forall j :: j != f && Live(dir, j) ==> dir'[j] == dir[j]
  {
    forall j | j != f
      ensures Live(dir', j) <==> Live(dir, j)
      ensures Live(dir, j) ==> dir'[j] == dir[j]
    {
      if dir[f][0] == 0 && j > f {
        assert !Live(dir, j);
        assert f + 1 < |dir| ==> dir'[f + 1][0] == 0;
      } else {
        assert forall i :: 0 <= i <= j && i < |dir| ==> (dir'[i][0] != 0 <==> dir[i][0] != 0);
      }
    }
  }

  lemma CreateKeepsSound(g: Geometry, m: Meta, dir': seq<Slot>, f: int, e: Slot)
    requires Sound(g, m) && Created(m.dir, dir', f, e) && e[0] != 0 && e[0] != 0xe5 && First(g, e) == 0
    ensures Sound(g, m.(dir := dir'))
  {
    var m' := m.(dir := dir');
    CreatedLive(m.dir, dir', f, e);
    assert forall x :: FatPtr(g, m', x) <==> FatPtr(g, m, x);
    assert forall i :: DirPtr(g, m', i) ==> i != f && DirPtr(g, m, i) && m'.dir[i] == m.dir[i];
  }

  /** A new, empty file under a name that no file has.  */
  lemma CreateKeeps(g: Geometry, m: Meta, ch: map<int, seq<int>>, dir': seq<Slot>, f: int, e: Slot)
    requires g.Wf() && Consistent(g, m, ch, -1) && Created(m.dir, dir', f, e) && e[0] != 0 && e[0] != 0xe5
    requires First(g, e) == 0 && Size(e) == 0 && !Special(e)
    requires forall i :: IsFile(m.dir, i) ==> Name(m.dir[i]) != Name(e)
    ensures Consistent(g, m.(dir := dir'), ch[f := []], -1) && f !in ch
    ensures forall i :: i in ch ==> 0 <= i < |m.dir| && dir'[i] == m.dir[i]
    ensures Pool(g, m.(dir := dir'), ch[f := []]) == Pool(g, m, ch)
  {
    EmptyChain(g, m.fat);
    CreateKeepsSound(g, m, dir', f, e);
    CreatedLive(m.dir, dir', f, e);
    hide Sound, Fits, IsChain, First, Size, Geometry.Wf, Name, Created, Live, Special;
    forall i
      ensures i in ch[f := []] <==> 0 <= i < |dir'| && IsFile(dir', i)
      ensures i in ch ==> i != f && 0 <= i < |m.dir| && dir'[i] == m.dir[i]
    {
      assert i in ch <==> 0 <= i < |m.dir| && IsFile(m.dir, i);
    }
    PoolAfterCreate(g, m, ch, dir', f);
    hide Consistent, Pool;
  }

  lemma PoolAfterCreate(g: Geometry, m: Meta, ch: map<int, seq<int>>, dir': seq<Slot>, f: int)
    requires |m.fat| == g.totclusters && f !in ch
    ensures Pool(g, m.(dir := dir'), ch[f := []]) == Pool(g, m, ch)
  {
    var ch' := ch[f := []];
    forall x
      ensures Owned(ch', x) <==> Owned(ch, x)
    {
      if Owned(ch, x) {
        var i :| i in ch && x in ch[i];
        assert i in ch' && x in ch'[i];
      }
      if Owned(ch', x) {
        var i :| i in ch' && x in ch'[i];
        assert i in ch && x in ch[i];
      }
    }
  }

  /** Creating a file at the end mark, in the last slot of a directory sector,
      while stale bytes follow in the next sector.  */
  predicate Exposes(dir: seq<Slot>, f: int) {
    0 <= f && f + 1 < |dir| && f % 16 == 15 && dir[f][0] == 0 && dir[f + 1][0] != 0
  }

  /** A slot behind the end mark `f` that comes to life, and points at a cluster,
      when slot f is filled and there is no new end mark yet.  */
  predicate Stale(g: Geometry, m: Meta, f: int, i: int) {
    && 0 <= f < i < |m.dir| && m.dir[i][0] != 0xe5 && m.dir[i][11] / 8 % 2 == 0
    && 2 <= First(g, m.dir[i]) < g.totclusters
    && forall j :: f < j <= i ==> m.dir[j][0] != 0
  }

  /** The stale slots point at used clusters that nothing else leads to.  */
  ghost predicate StaleApart(g: Geometry, m: Meta, f: int)
    requires |m.fat| == g.totclusters
  {
    && (forall i :: Stale(g, m, f, i) ==> m.fat[First(g, m.dir[i])] != 0 && Unlinked(g, m, First(g, m.dir[i])))
    && (forall i, j :: Stale(g, m, f, i) && Stale(g, m, f, j) && First(g, m.dir[i]) == First(g, m.dir[j]) ==> i == j)
  }

  lemma HalfPointers(g: Geometry, m: Meta, f: int, e: Slot, i: int)
    requires 0 <= f < |m.dir| && e[0] != 0 && First(g, e) == 0 && m.dir[f][0] == 0
    requires forall j :: 0 <= j < f ==> m.dir[j][0] != 0
    ensures !DirPtr(g, m, f) && (DirPtr(g, m, i) ==> i < f)
    ensures var m' := m.(dir := m.dir[f := e]);
            && (DirPtr(g, m', i) <==> DirPtr(g, m, i) || Stale(g, m, f, i))
            && (DirPtr(g, m', i) ==> 0 <= i < |m.dir| && m'.dir[i] == m.dir[i])
  {
    var dir' := m.dir[f := e];
    assert forall j :: 0 <= j < |dir'| && j != f ==> dir'[j] == m.dir[j];
    if i > f && Live(dir', i) {
      assert forall j :: f < j <= i ==> m.dir[j] == dir'[j];
    }
  }

  /** Between the write of the new slot and that of the end mark behind it, the
      tables are sound exactly if the stale slots are harmless.  */
  lemma HalfSound(g: Geometry, m: Meta, f: int, e: Slot)
    requires Sound(g, m) && 0 <= f < |m.dir| && e[0] != 0 && First(g, e) == 0
    requires m.dir[f][0] == 0 && forall j :: 0 <= j < f ==> m.dir[j][0] != 0
    ensures Sound(g, m.(dir := m.dir[f := e])) <==> StaleApart(g, m, f)
  {
    hide First, Points;
    var m' := m.(dir := m.dir[f := e]);
    forall i
      ensures DirPtr(g, m', i) <==> DirPtr(g, m, i) || Stale(g, m, f, i)
      ensures Stale(g, m, f, i) ==> f < i < |m.dir| && 2 <= First(g, m.dir[i]) < g.totclusters
      ensures DirPtr(g, m', i) ==> 0 <= i < |m.dir| && m'.dir[i] == m.dir[i]
      ensures DirPtr(g, m, i) ==> i < f
    {
      HalfPointers(g, m, f, e, i);
    }
    assert forall x :: FatPtr(g, m', x) <==> FatPtr(g, m, x);
    hide Stale, DirPtr;
    if Sound(g, m') {
      forall i | Stale(g, m, f, i)
        ensures m.fat[First(g, m.dir[i])] != 0 && Unlinked(g, m, First(g, m.dir[i]))
      {
        assert DirPtr(g, m', i);
      }
    }
    if StaleApart(g, m, f) {
      assert NoDangling(g, m') && NoCrossLink(g, m');
    }
  }

  /** Creating a file in slot `f` leaves the disk unsound between its two block
      writes.  */
  ghost predicate HalfUnsafe(g: Geometry, m: Meta, f: int) {
    |m.fat| == g.totclusters && Exposes(m.dir, f) && !StaleApart(g, m, f)
  }

  /** Between the write of the new slot and that of the end mark behind it, the
      tables are sound, unless stale slots follow.  */
  lemma HalfCreated(g: Geometry, m: Meta, f: int, e: Slot)
    requires Sound(g, m) && 0 <= f < |m.dir| && e[0] != 0 && e[0] != 0xe5 && First(g, e) == 0
    requires forall j :: 0 <= j < f ==> m.dir[j][0] != 0
    requires m.dir[f][0] == 0 || m.dir[f][0] == 0xe5
    requires m.dir[f][0] == 0 && f + 1 < |m.dir| ==> m.dir[f + 1][0] == 0
    ensures Sound(g, m.(dir := m.dir[f := e]))
  {
    CreateKeepsSound(g, m, m.dir[f := e], f, e);
  }

  /** A small volume with fifteen empty files, the end mark in slot 15, and behind it
      a stale slot that points at a free cluster.  */
  function SmallGeometry(): Geometry { Geometry(1, 1, 1, 1536, 2560, 3, 0, 4, 0) }

  function SmallSlot(i: nat): Slot
    requires i < 32
  {
    Put16(Blank(seq(11, j => 65 + i)), 0x1a, if i == 16 then 2 else 0)
  }

  function SmallTables(): (m: Meta)
    ensures |m.fat| == 4 && |m.dir| == 32
  {
    Meta([0xfff8, 0xffff, 0, 0],
         seq(32, i requires 0 <= i < 32 => if i == 15 || i > 16 then seq(32, j => 0) else SmallSlot(i)))
  }

  lemma SmallSlotFields(i: nat)
    requires i < 32
    ensures var e := SmallSlot(i);
            && e[0] == 65 + i && e[11] == 0 && First(SmallGeometry(), e) == (if i == 16 then 2 else 0)
            && Size(e) == 0 && Name(e)[0] == 65 + i
  {
    var b := Blank(seq(11, j => 65 + i));
    assert SmallSlot(i)[28] == b[28] == 0 && SmallSlot(i)[29] == b[29] == 0;
    assert SmallSlot(i)[30] == b[30] == 0 && SmallSlot(i)[31] == b[31] == 0;
  }

  lemma SmallFields(i: int)
    ensures var g, m := SmallGeometry(), SmallTables();
            && (Live(m.dir, i) <==> 0 <= i < 15)
            && (0 <= i < 32 && i != 15 && i <= 16 ==>
                  && First(g, m.dir[i]) == (if i == 16 then 2 else 0) && Size(m.dir[i]) == 0
                  && m.dir[i][0] == Name(m.dir[i])[0] == 65 + i && m.dir[i][11] == 0)
            && m.dir[15][0] == 0 && (16 < i < 32 ==> m.dir[i][0] == 0)
  {
    var m := SmallTables();
    forall j | 0 <= j < 15 || j == 16
      ensures m.dir[j] == SmallSlot(j) && m.dir[j][0] == 65 + j
    {
      SmallSlotFields(j);
    }
    if 0 <= i < 15 || i == 16 {
      SmallSlotFields(i);
    }
    assert m.dir[15][0] == 0;
    hide SmallSlot, First, Size, Name;
  }

  lemma SmallVolume()
    ensures var g, m := SmallGeometry(), SmallTables();
            && g.Wf() && g.Slots() == 32 && Sound(g, m)
            && Consistent(g, m, map i | 0 <= i < 32 && IsFile(m.dir, i) :: [], -1)
  {
    var g, m := SmallGeometry(), SmallTables();
    assert Pow2(0) == 1;
    assert m.fat == [0xfff8, 0xffff, 0, 0];
    forall i
      ensures Live(m.dir, i) <==> 0 <= i < 15
      ensures 0 <= i < 15 ==> First(g, m.dir[i]) == 0 && Size(m.dir[i]) == 0 && Name(m.dir[i])[0] == 65 + i
    {
      SmallFields(i);
    }
    hide SmallTables, First, Size, Name, Live;
    assert forall x :: !FatPtr(g, m, x);
    assert forall i :: !DirPtr(g, m, i);
    EmptyChain(g, m.fat);
    hide Fits, IsChain, DirPtr, FatPtr, Special;
  }

  /** There the image between the two writes of a creation is not sound, although
      the volume before it is consistent.  */
  lemma HalfUnsound(e: Slot)
    requires e[0] != 0 && First(SmallGeometry(), e) == 0
    ensures var g, m := SmallGeometry(), SmallTables();
            && g.Wf() && g.Slots() == 32 && Consistent(g, m, map i | 0 <= i < 32 && IsFile(m.dir, i) :: [], -1)
            && HalfUnsafe(g, m, 15) && !Sound(g, m.(dir := m.dir[15 := e]))
  {
    var g, m := SmallGeometry(), SmallTables();
    SmallVolume();
    SmallFields(15);
    SmallFields(16);
    forall j | 0 <= j < 15
      ensures m.dir[j][0] != 0
    {
      SmallFields(j);
    }
    assert m.fat[2] == 0;
    hide SmallTables, First, IsFile, Consistent;
    assert Stale(g, m, 15, 16);
    HalfSound(g, m, 15, e);
  }

  /** The first bytes of the slots.  */
  function HeadsOf(dir: seq<Slot>): seq<byte> {
    seq(|dir|, i requires 0 <= i < |dir| => dir[i][0])
  }

  /** Behind the first slot that starts with 0 all slots do.  */
  ghost predicate NoStale(heads: seq<byte>) {
    forall i, j :: 0 <= i < j < |heads| && heads[i] == 0 ==> heads[j] == 0
  }

  /** Creating a file makes no stale slot, and where there is none exposes none.  */
  lemma CreatedNoStale(dir: seq<Slot>, dir': seq<Slot>, f: int, e: Slot)
    requires Created(dir, dir', f, e) && e[0] != 0 && NoStale(HeadsOf(dir))
    ensures NoStale(HeadsOf(dir')) && !Exposes(dir, f)
  {
    var h, h' := HeadsOf(dir), HeadsOf(dir');
    assert h[f] == dir[f][0] && h'[f] == e[0];
    assert f + 1 < |dir| ==> h[f + 1] == dir[f + 1][0] && h'[f + 1] == dir'[f + 1][0];
    forall i | 0 <= i < |h| && i != f && h[i] != h'[i]
      ensures h[f] == 0 && i == f + 1
    {
      assert dir[i] != dir'[i];
    }
  }

  lemma DeletedNoStale(dir: seq<Slot>, i: int, e: Slot)
    requires 0 <= i < |dir| && dir[i][0] != 0 && e[0] != 0 && NoStale(HeadsOf(dir))
    ensures NoStale(HeadsOf(dir[i := e]))
  {
    var h, h' := HeadsOf(dir), HeadsOf(dir[i := e]);
    assert forall k :: 0 <= k < |dir| ==> (h'[k] == 0 <==> h[k] == 0);
  }

  lemma HeadsKept(dir: seq<Slot>, dir': seq<Slot>, i: int)
    requires |dir'| == |dir| && forall j :: 0 <= j < |dir| && j != i ==> dir'[j] == dir[j]
    requires 0 <= i < |dir| && Name(dir'[i]) == Name(dir[i])
    ensures HeadsOf(dir') == HeadsOf(dir)
  {
    assert dir'[i][0] == Name(dir'[i])[0] == Name(dir[i])[0] == dir[i][0];
  }

  /** With stale bytes behind the end mark, the first write does bring a slot back
      to life that was dead before and is dead again after the second write.  */
  lemma StaleSlotLives(dir: seq<Slot>, f: int, e: Slot, z: Slot)
    requires 0 <= f && f + 1 < |dir| && e[0] != 0 && z[0] == 0 && dir[f][0] == 0
    requires forall j :: 0 <= j < f ==> dir[j][0] != 0
    requires dir[f + 1][0] != 0 && dir[f + 1][0] != 0xe5
    ensures !Live(dir, f + 1) && Live(dir[f := e], f + 1) && !Live(dir[f := e][f + 1 := z], f + 1)
  {
    assert dir[f := e][f + 1 := z][f + 1][0] == 0;
    var dir' := dir[f := e];
    assert forall j :: 0 <= j <= f + 1 ==> dir'[j][0] != 0;
  }
}
