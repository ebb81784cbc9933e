/** The theory of cluster chains: which FATs and root directories are sound,
    what a file's chain is, and what each single update of a table keeps.  */
module Fat {
  import opened Bytes
  import opened Arith
  import opened Layout

  // ------------------------------------------------------- directory slots

  function Name(e: Slot): (n: seq<byte>) { e[..11] }

  function Size(e: Slot): int { Le32(e, 28) }

  function First(g: Geometry, e: Slot): int {
    if g.filesystem == 2 then Long(Le16(e, 26) + 0x1_0000 * Le16(e, 20)) else Le16(e, 26)
  }

  /** A directory slot with nothing but a name.  */
  function Blank(name: seq<byte>): Slot
    requires |name| == 11
  {
    name + seq(21, j => 0)
  }

  /** Attribute bits $18: volume label or directory.  */
  predicate Special(e: Slot) { e[11] / 8 % 4 != 0 }

  /** Attribute bits $d9: anything that forbids writing.  */
  predicate LockedBits(a: byte) { a % 2 == 1 || a / 8 % 4 != 0 || a / 64 != 0 }

  predicate Locked(e: Slot) { LockedBits(e[11]) }

  /** A slot before the first one that starts with 0, and not deleted.  */
  predicate Live(dir: seq<Slot>, i: int) {
    0 <= i < |dir| && dir[i][0] != 0xe5 && forall j :: 0 <= j <= i ==> dir[j][0] != 0
  }

  predicate IsFile(dir: seq<Slot>, i: int) { Live(dir, i) && !Special(dir[i]) }

  /** A live slot whose cluster field means something: a file or a directory,
      not a volume label or a piece of a long name.  */
  predicate Points(dir: seq<Slot>, i: int) { Live(dir, i) && dir[i][11] / 8 % 2 == 0 }

  lemma FilePoints(dir: seq<Slot>, i: int)
    requires IsFile(dir, i)
    ensures Points(dir, i)
  {
    assert 0 <= i < |dir|;
    hide Live;
    var a := dir[i][11] / 8;
    assert a == 4 * (a / 4);
  }

  /** A word stored inside slot i, as a change of the directory table.  */
  lemma DirWord(g: Geometry, d: Disk, i: int, k: int, v: int)
    requires Holds(g, d) && 0 <= i < g.Slots() && 0 <= k <= DIRSIZE - 2
    requires g.IsMeta(g.SlotBlk(i)) && 0 <= g.SlotBlk(i) < |d| && 0 <= g.SlotOff(i) <= SECTORSIZE - DIRSIZE
    ensures var d' := MetaWrite(g, d, g.SlotBlk(i), Put16(d[g.SlotBlk(i)], g.SlotOff(i) + k, v));
            var m := MetaOf(g, d);
            MetaOf(g, d') == m.(dir := m.dir[i := Put16(m.dir[i], k, v)])
  {
    SlotPlace(g, i);
    var o := g.SlotOff(i);
    var b := Put16(d[g.SlotBlk(i)], o + k, v);
    DirPut(g, d, i, b);
    assert b[o..o + DIRSIZE] == Put16(DirSlot(g, d, i), k, v);
  }

  lemma DirLong(g: Geometry, d: Disk, i: int, k: int, v: int)
    requires Holds(g, d) && 0 <= i < g.Slots() && 0 <= k <= DIRSIZE - 4
    requires g.IsMeta(g.SlotBlk(i)) && 0 <= g.SlotBlk(i) < |d| && 0 <= g.SlotOff(i) <= SECTORSIZE - DIRSIZE
    ensures var d' := MetaWrite(g, d, g.SlotBlk(i), Put32(d[g.SlotBlk(i)], g.SlotOff(i) + k, v));
            var m := MetaOf(g, d);
            MetaOf(g, d') == m.(dir := m.dir[i := Put32(m.dir[i], k, v)])
  {
    SlotPlace(g, i);
    var o := g.SlotOff(i);
    var b := Put32(d[g.SlotBlk(i)], o + k, v);
    DirPut(g, d, i, b);
    assert b[o..o + DIRSIZE] == Put32(DirSlot(g, d, i), k, v);
  }

  // ------------------------------------------------------------- soundness

  predicate FatPtr(g: Geometry, m: Meta, x: int)
    requires |m.fat| == g.totclusters
  {
    2 <= x < g.totclusters && 2 <= m.fat[x] < g.totclusters
  }

  predicate DirPtr(g: Geometry, m: Meta, i: int) {
    Points(m.dir, i) && 2 <= First(g, m.dir[i]) < g.totclusters
  }

  /** No pointer, from the FAT or from a live slot, leads to a free cluster.  */
  ghost predicate NoDangling(g: Geometry, m: Meta)
    requires |m.fat| == g.totclusters
  {
    && (forall x :: FatPtr(g, m, x) ==> m.fat[m.fat[x]] != 0)
    && (forall i :: DirPtr(g, m, i) ==> m.fat[First(g, m.dir[i])] != 0)
  }

  /** No two pointers lead to the same cluster.  */
  ghost predicate NoCrossLink(g: Geometry, m: Meta)
    requires |m.fat| == g.totclusters
  {
    && (forall x, y :: FatPtr(g, m, x) && FatPtr(g, m, y) && m.fat[x] == m.fat[y] ==> x == y)
    && (forall i, j :: DirPtr(g, m, i) && DirPtr(g, m, j) && First(g, m.dir[i]) == First(g, m.dir[j]) ==> i == j)
    && (forall i, x :: DirPtr(g, m, i) && FatPtr(g, m, x) ==> First(g, m.dir[i]) != m.fat[x])
  }

  /** What holds of the tables at every moment, also of those on the disk after
      each single block write.  */
  ghost predicate Sound(g: Geometry, m: Meta) {
    |m.fat| == g.totclusters && NoDangling(g, m) && NoCrossLink(g, m)
  }

  /** Nothing leads to cluster `c`.  */
  ghost predicate Unlinked(g: Geometry, m: Meta, c: int)
    requires |m.fat| == g.totclusters
  {
    && (forall x :: FatPtr(g, m, x) ==> m.fat[x] != c)
    && (forall i :: DirPtr(g, m, i) ==> First(g, m.dir[i]) != c)
  }

  lemma FreeIsUnlinked(g: Geometry, m: Meta, c: int)
    requires Sound(g, m) && 0 <= c < g.totclusters && m.fat[c] == 0
    ensures Unlinked(g, m, c)
  {
  }

  /** Marking a free cluster as the end of a chain.  */
  lemma MarkKeepsSound(g: Geometry, m: Meta, c: int, v: int)
    requires g.Wf() && Sound(g, m) && 2 <= c < g.totclusters && m.fat[c] == 0 && v >= g.EndOfChain()
    ensures Sound(g, m.(fat := m.fat[c := v]))
    ensures Unlinked(g, m.(fat := m.fat[c := v]), c)
  {
    var m' := m.(fat := m.fat[c := v]);
    FreeIsUnlinked(g, m, c);
    assert forall x :: FatPtr(g, m', x) ==> FatPtr(g, m, x) && m'.fat[x] == m.fat[x];
    assert forall i :: DirPtr(g, m', i) <==> DirPtr(g, m, i);
  }

  /** Linking a used cluster that nothing leads to behind the end of a chain.  */
  lemma LinkKeepsSound(g: Geometry, m: Meta, last: int, c: int)
    requires g.Wf() && Sound(g, m) && 2 <= last < g.totclusters && m.fat[last] >= g.EndOfChain()
    requires 2 <= c < g.totclusters && m.fat[c] != 0 && Unlinked(g, m, c)
    ensures Sound(g, m.(fat := m.fat[last := c]))
  {
    var m' := m.(fat := m.fat[last := c]);
    assert forall x :: FatPtr(g, m', x) ==> x == last || (FatPtr(g, m, x) && m'.fat[x] == m.fat[x]);
    assert forall i :: DirPtr(g, m', i) <==> DirPtr(g, m, i);
  }

  /** Freeing a cluster that nothing leads to: its successor is then unlinked.  */
  lemma ZeroKeepsSound(g: Geometry, m: Meta, c: int)
    requires Sound(g, m) && 2 <= c < g.totclusters && Unlinked(g, m, c)
    ensures Sound(g, m.(fat := m.fat[c := 0]))
    ensures 2 <= m.fat[c] < g.totclusters ==>
              m.fat[c] != c && m.fat[m.fat[c]] != 0 && Unlinked(g, m.(fat := m.fat[c := 0]), m.fat[c])
  {
    var m' := m.(fat := m.fat[c := 0]);
    assert forall x :: FatPtr(g, m', x) ==> x != c && FatPtr(g, m, x) && m'.fat[x] == m.fat[x];
    assert forall i :: DirPtr(g, m', i) <==> DirPtr(g, m, i);
    if 2 <= m.fat[c] < g.totclusters {
      assert FatPtr(g, m, c);
    }
  }

  /** Replacing one slot by another that is live at most as before and points at
      most where it pointed.  */
  lemma SlotShrinkKeepsSound(g: Geometry, m: Meta, i: int, e: Slot)
    requires Sound(g, m) && 0 <= i < |m.dir|
    requires e[0] != 0 && m.dir[i][0] != 0
    requires Points(m.dir[i := e], i) && 2 <= First(g, e) < g.totclusters ==>
               DirPtr(g, m, i) && First(g, e) == First(g, m.dir[i])
    ensures Sound(g, m.(dir := m.dir[i := e]))
  {
    var m' := m.(dir := m.dir[i := e]);
    assert forall x :: FatPtr(g, m', x) <==> FatPtr(g, m, x);
    LiveAfterSlot(m.dir, i, e);
    assert forall j :: DirPtr(g, m', j) ==> DirPtr(g, m, j) && First(g, m'.dir[j]) == First(g, m.dir[j]);
  }

  /** Liveness of the other slots does not depend on a slot that is not 0.  */
  lemma LiveAfterSlot(dir: seq<Slot>, i: int, e: Slot)
    requires 0 <= i < |dir| && e[0] != 0 && dir[i][0] != 0
    ensures forall j :: j != i ==> (Live(dir[i := e], j) <==> Live(dir, j))
    ensures Live(dir, i) ==> (Live(dir[i := e], i) <==> e[0] != 0xe5)
  {
    var dir' := dir[i := e];
    forall j | j != i
      ensures Live(dir', j) <==> Live(dir, j)
    {
      assert forall k :: 0 <= k < |dir| && k != i ==> dir'[k] == dir[k];
    }
  }

  /** Pointing a live slot at a used cluster that nothing leads to.  */
  lemma SlotLinkKeepsSound(g: Geometry, m: Meta, i: int, e: Slot)
    requires Sound(g, m) && 0 <= i < |m.dir|
    requires e[0] != 0 && m.dir[i][0] != 0
    requires 2 <= First(g, e) < g.totclusters && m.fat[First(g, e)] != 0 && Unlinked(g, m, First(g, e))
    ensures Sound(g, m.(dir := m.dir[i := e]))
  {
    var m' := m.(dir := m.dir[i := e]);
    assert forall x :: FatPtr(g, m', x) <==> FatPtr(g, m, x);
    LiveAfterSlot(m.dir, i, e);
    assert forall j :: DirPtr(g, m', j) && j != i ==> DirPtr(g, m, j) && m'.dir[j] == m.dir[j];
  }

  // ---------------------------------------------------------------- chains

  predicate Linked(fat: seq<int>, cl: seq<int>, k: int)
    requires 0 <= k < |cl| - 1
  {
    0 <= cl[k] < |fat| && fat[cl[k]] == cl[k + 1]
  }

  /** `cl` is the chain of clusters that starts at `first`.  */
  ghost predicate IsChain(g: Geometry, fat: seq<int>, first: int, cl: seq<int>)
    requires |fat| == g.totclusters
  {
    && (cl == [] ==> first == 0 || first >= g.EndOfChain())
    && (cl != [] ==> first == cl[0])
    && (forall k :: 0 <= k < |cl| ==> g.IsData(cl[k]))
    && (forall k {:trigger Linked(fat, cl, k)} :: 0 <= k < |cl| - 1 ==> Linked(fat, cl, k))
    && (cl != [] ==> fat[cl[|cl| - 1]] >= g.EndOfChain())
  }

  /** What the entry of the k-th cluster of a chain holds.  */
  lemma ChainStep(g: Geometry, fat: seq<int>, first: int, cl: seq<int>, k: int)
    requires g.Wf() && |fat| == g.totclusters && IsChain(g, fat, first, cl) && 0 <= k < |cl|
    ensures g.IsData(cl[k])
    ensures if k == |cl| - 1 then fat[cl[k]] >= g.EndOfChain() else fat[cl[k]] == cl[k + 1] && g.IsData(cl[k + 1])
  {
    if k < |cl| - 1 {
      assert Linked(fat, cl, k);
    }
  }

  /** A chain is determined by the FAT and its first cluster.  */
  lemma {:induction false} ChainPrefix(g: Geometry, fat: seq<int>, first: int, cl: seq<int>, cl': seq<int>, k: int)
    requires g.Wf() && |fat| == g.totclusters && IsChain(g, fat, first, cl) && IsChain(g, fat, first, cl')
    requires 0 <= k < |cl|
    ensures k < |cl'| && cl[k] == cl'[k]
  {
    if k == 0 {
      assert g.IsData(cl[0]);
    } else {
      ChainPrefix(g, fat, first, cl, cl', k - 1);
      ChainStep(g, fat, first, cl, k - 1);
      ChainStep(g, fat, first, cl', k - 1);
    }
  }

  lemma ChainUnique(g: Geometry, fat: seq<int>, first: int, cl: seq<int>, cl': seq<int>)
    requires g.Wf() && |fat| == g.totclusters && IsChain(g, fat, first, cl) && IsChain(g, fat, first, cl')
    ensures cl == cl'
  {
    forall k | 0 <= k < |cl|
      ensures k < |cl'| && cl[k] == cl'[k]
    {
      ChainPrefix(g, fat, first, cl, cl', k);
    }
    if |cl| < |cl'| {
      ChainPrefix(g, fat, first, cl', cl, |cl|);
    }
  }

  lemma ChainPtr(g: Geometry, m: Meta, i: int, cl: seq<int>, k: int)
    requires g.Wf() && |m.fat| == g.totclusters && Points(m.dir, i) && IsChain(g, m.fat, First(g, m.dir[i]), cl)
    requires 0 <= k < |cl|
    ensures g.IsData(cl[k])
    ensures if k == 0 then DirPtr(g, m, i) && First(g, m.dir[i]) == cl[0]
            else g.IsData(cl[k - 1]) && FatPtr(g, m, cl[k - 1]) && m.fat[cl[k - 1]] == cl[k]
  {
    if k > 0 {
      ChainStep(g, m.fat, First(g, m.dir[i]), cl, k - 1);
    }
  }

  /** In a sound volume the chains of two live slots share no cluster, and no
      chain visits a cluster twice.  */
  lemma {:induction false} ChainsApart(g: Geometry, m: Meta, i: int, cl: seq<int>, a: int, j: int, cl': seq<int>, b: int)
    requires g.Wf() && Sound(g, m) && Points(m.dir, i) && Points(m.dir, j)
    requires IsChain(g, m.fat, First(g, m.dir[i]), cl) && IsChain(g, m.fat, First(g, m.dir[j]), cl')
    requires 0 <= a < |cl| && 0 <= b < |cl'| && cl[a] == cl'[b]
    ensures i == j && a == b
    decreases a
  {
    ChainPtr(g, m, i, cl, a);
    ChainPtr(g, m, j, cl', b);
    if a > 0 && b > 0 {
      ChainsApart(g, m, i, cl, a - 1, j, cl', b - 1);
    }
  }

  /** No cluster of a chain is free.  */
  lemma ChainUsed(g: Geometry, m: Meta, i: int, cl: seq<int>, k: int)
    requires g.Wf() && Sound(g, m) && Points(m.dir, i) && IsChain(g, m.fat, First(g, m.dir[i]), cl) && 0 <= k < |cl|
    ensures g.IsData(cl[k]) && m.fat[cl[k]] != 0
  {
    ChainPtr(g, m, i, cl, k);
  }

  // --------------------------------------------------------------- volumes

  /** How many bytes `n` clusters hold.  */
  function Room(g: Geometry, n: int): (r: int)
    ensures r >= 0
  {
    if n <= 0 then 0 else Room(g, n - 1) + g.ClusterSize()
  }

  /** `n` clusters are what `size` bytes need; an empty file may own one.  */
  predicate Fits(g: Geometry, n: int, size: int) {
    && 0 <= size <= Room(g, n)
    && (Room(g, n) < size + g.ClusterSize() || (size == 0 && n <= 1))
  }

  /** A consistent volume, as far as the code looks at its root directory.  `ch` gives
      every live file its chain; only the size recorded for slot `w`, the file open for
      writing, may lag behind.  */
  ghost predicate Consistent(g: Geometry, m: Meta, ch: map<int, seq<int>>, w: int) {
    && Sound(g, m) && |m.fat| == g.totclusters >= 2
    && m.fat[0] != 0 && m.fat[1] != 0
    && (g.filesystem == 2 ==> 0 <= g.rootcluster < |m.fat| && m.fat[g.rootcluster] != 0)
    && (forall i {:trigger i in ch} {:trigger IsFile(m.dir, i)} :: i in ch <==> 0 <= i < |m.dir| && IsFile(m.dir, i))
    && (forall i {:trigger i in ch} :: i in ch ==> IsChain(g, m.fat, First(g, m.dir[i]), ch[i]))
    && (forall i {:trigger i in ch} :: i in ch && i != w ==> Fits(g, |ch[i]|, Size(m.dir[i])))
    && (forall i, j {:trigger i in ch, j in ch} :: i in ch && j in ch && Name(m.dir[i]) == Name(m.dir[j]) ==> i == j)
  }

  /** Chains of a consistent volume are pairwise disjoint and acyclic.  */
  lemma FilesApart(g: Geometry, m: Meta, ch: map<int, seq<int>>, w: int, i: int, a: int, j: int, b: int)
    requires g.Wf() && Consistent(g, m, ch, w) && i in ch && j in ch
    requires 0 <= a < |ch[i]| && 0 <= b < |ch[j]| && ch[i][a] == ch[j][b]
    ensures i == j && a == b
  {
    hide Fits, Sound, IsChain, Live, Special, Name, First, Points;
    FilePoints(m.dir, i);
    FilePoints(m.dir, j);
    ChainsApart(g, m, i, ch[i], a, j, ch[j], b);
  }

  ghost predicate Owned(ch: map<int, seq<int>>, c: int) {
    exists i :: i in ch && c in ch[i]
  }

  /** The clusters that are free or belong to a file: no operation loses one or
      takes one from elsewhere.  */
  ghost function Pool(g: Geometry, m: Meta, ch: map<int, seq<int>>): set<int>
    requires |m.fat| == g.totclusters
  {
    set c | 2 <= c < g.totclusters && (m.fat[c] == 0 || Owned(ch, c))
  }

  ghost function FreeSet(g: Geometry, fat: seq<int>): set<int>
    requires |fat| == g.totclusters
  {
    set c | 2 <= c < g.totclusters && fat[c] == 0
  }

  // --------------------------------------------------------------- freeing

  /** No entry leads outside the FAT.  */
  ghost predicate InRange(g: Geometry, fat: seq<int>) {
    forall c :: 0 <= c < |fat| && fat[c] < g.EndOfChain() ==> fat[c] < g.totclusters
  }

  ghost function NonZero(fat: seq<int>): set<int> {
    set c | 0 <= c < |fat| && fat[c] != 0
  }

  /** How freeing ends: at an end of chain, with the abort on a bad cluster
      number, or at a number that has no entry in the FAT.  */
  datatype FreeEnd = Done | BadCluster | OutOfRange

  /** What freeing from `clust` leaves of the FAT.  Every round but the last clears
      a nonzero entry.  */
  ghost function FreeChain(g: Geometry, fat: seq<int>, clust: int): (r: (seq<int>, FreeEnd))
    requires |fat| == g.totclusters
    ensures |r.0| == |fat|
    decreases NonZero(fat)
  {
    if clust >= g.EndOfChain() then (fat, Done)
    else if clust >= g.totclusters then (fat, OutOfRange)
    else if clust < 2 || fat[clust] == 0 then (fat, BadCluster)
    else
      assert clust in NonZero(fat) && clust !in NonZero(fat[clust := 0]);
      FreeChain(g, fat[clust := 0], fat[clust])
  }

  ghost predicate Distinct(cl: seq<int>) {
    forall a, b :: 0 <= a < b < |cl| ==> cl[a] != cl[b]
  }

  /** A terminated walk through the FAT without repetition.  */
  ghost predicate IsWalk(g: Geometry, fat: seq<int>, first: int, cl: seq<int>)
    requires |fat| == g.totclusters
  {
    && Distinct(cl)
    && (if cl == [] then first >= g.EndOfChain() else first == cl[0])
    && (forall k :: 0 <= k < |cl| ==> 2 <= cl[k] < g.totclusters)
    && (forall k {:trigger Linked(fat, cl, k)} :: 0 <= k < |cl| - 1 ==> Linked(fat, cl, k))
    && (cl != [] ==> fat[cl[|cl| - 1]] >= g.EndOfChain())
  }

  function Zeroed(fat: seq<int>, cl: seq<int>): (r: seq<int>)
    ensures |r| == |fat|
  {
    seq(|fat|, c requires 0 <= c < |fat| => if c in cl then 0 else fat[c])
  }

  lemma WalkTail(g: Geometry, fat: seq<int>, first: int, cl: seq<int>)
    requires g.Wf() && |fat| == g.totclusters && IsWalk(g, fat, first, cl) && cl != []
    ensures 2 <= first < g.totclusters && fat[first] != 0 && IsWalk(g, fat[first := 0], fat[first], cl[1..])
    ensures Zeroed(fat[first := 0], cl[1..]) == Zeroed(fat, cl)
  {
    var t := cl[1..];
    forall k {:trigger Linked(fat[first := 0], t, k)} | 0 <= k < |t| - 1
      ensures Linked(fat[first := 0], t, k)
    {
      assert Linked(fat, cl, k + 1);
    }
    if |cl| > 1 {
      assert Linked(fat, cl, 0);
    }
    assert cl == [first] + t;
  }

  /** Along a well-formed chain exactly the entries of the chain are cleared.  */
  lemma {:induction false} FreeWalk(g: Geometry, fat: seq<int>, first: int, cl: seq<int>)
    requires g.Wf() && |fat| == g.totclusters && IsWalk(g, fat, first, cl)
    ensures FreeChain(g, fat, first) == (Zeroed(fat, cl), Done)
    decreases |cl|
  {
    if cl == [] {
      assert Zeroed(fat, cl) == fat;
    } else {
      WalkTail(g, fat, first, cl);
      FreeWalk(g, fat[first := 0], fat[first], cl[1..]);
    }
  }

  /** On any FAT whose entries are in range, cyclic or cut off, freeing ends at an
      end of chain or with the abort.  */
  lemma {:induction false} FreeInRange(g: Geometry, fat: seq<int>, first: int)
    requires |fat| == g.totclusters && InRange(g, fat)
    requires first < g.EndOfChain() ==> first < g.totclusters
    ensures FreeChain(g, fat, first).1 != OutOfRange
    decreases NonZero(fat)
  {
    if 2 <= first < g.EndOfChain() && fat[first] != 0 {
      assert first in NonZero(fat) && first !in NonZero(fat[first := 0]);
      FreeInRange(g, fat[first := 0], fat[first]);
    }
  }

  /** Freeing reaches an end of chain exactly if it started on a well-formed chain,
      whatever the rest of the FAT holds.  */
  lemma {:induction false} FreeEndsWell(g: Geometry, fat: seq<int>, first: int) returns (cl: seq<int>)
    requires g.Wf() && |fat| == g.totclusters
    ensures FreeChain(g, fat, first).1 == Done <==> exists w :: IsWalk(g, fat, first, w)
    ensures FreeChain(g, fat, first).1 == Done ==> IsWalk(g, fat, first, cl)
    decreases NonZero(fat)
  {
    cl := [];
    if first >= g.EndOfChain() {
      assert IsWalk(g, fat, first, []);
    } else if FreeChain(g, fat, first).1 == Done {
      assert first in NonZero(fat) && first !in NonZero(fat[first := 0]);
      var t := FreeEndsWell(g, fat[first := 0], fat[first]);
      cl := [first] + t;
      forall k | 0 <= k < |t|
        ensures t[k] != first
      {
        if k < |t| - 1 {
          assert Linked(fat[first := 0], t, k);
        }
      }
      forall k {:trigger Linked(fat, cl, k)} | 0 <= k < |cl| - 1
        ensures Linked(fat, cl, k)
      {
        if k > 0 {
          assert Linked(fat[first := 0], t, k - 1);
        }
      }
      assert Distinct(cl);
      assert cl[|cl| - 1] == if t == [] then first else t[|t| - 1];
      assert IsWalk(g, fat, first, cl);
    } else if w :| IsWalk(g, fat, first, w) {
      FreeWalk(g, fat, first, w);
    }
  }
}
