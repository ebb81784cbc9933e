/** How many clusters the files of a volume take: what a volume owns, chain by
    chain, and what its user can tell from the lengths of the files.  */
module Counting {
  import opened Bytes
  import opened Arith
  import opened Layout
  import opened Fat
  import opened Content
  import opened Updates

  // -------------------------------------------------------------------- sums

  ghost function Pick<K, V>(s: map<K, V>): (k: K)
    requires s != map[]
    ensures k in s
  {
    var k :| k in s; k
  }

  /** The sum of all values.  */
  ghost function Sum<K>(s: map<K, nat>): nat
    decreases |s|
  {
    if s == map[] then 0
    else
      SmallerWithout(s, Pick(s));
      s[Pick(s)] + Sum(s - {Pick(s)})
  }

  lemma SmallerWithout<K>(s: map<K, nat>, k: K)
    requires k in s
    ensures |s - {k}| < |s|
  {
    assert (s - {k}).Keys == s.Keys - {k};
  }

  lemma {:induction false} SumWithout<K>(s: map<K, nat>, k: K)
    requires k in s
    ensures Sum(s) == s[k] + Sum(s - {k})
    decreases |s|
  {
    var p := Pick(s);
    if p != k {
      SmallerWithout(s, p);
      SmallerWithout(s, k);
      SumWithout(s - {p}, k);
      SumWithout(s - {k}, p);
      assert s - {p} - {k} == s - {k} - {p};
    }
  }

  // ------------------------------------------------------------------ chains

  /** How many clusters of `cs` bytes `size` bytes need.  */
  function Units(size: nat, cs: int): (u: nat)
    requires cs > 0
    ensures size > 0 ==> u > 0
  {
    if size == 0 then 0 else (size - 1) / cs + 1
  }

  ghost function ChainSizes(ch: map<int, seq<int>>): map<int, nat> {
    map i | i in ch :: |ch[i]|
  }

  /** The clusters of all chains together.  */
  ghost function Total(ch: map<int, seq<int>>): nat { Sum(ChainSizes(ch)) }

  ghost function FileSizes(files: Files, cs: int): map<seq<byte>, nat>
    requires cs > 0
  {
    map n | n in files :: Units(|files[n].data|, cs)
  }

  /** The clusters that the bytes of all files need.  */
  ghost function Need(files: Files, cs: int): nat
    requires cs > 0
  {
    Sum(FileSizes(files, cs))
  }

  lemma TotalWithout(ch: map<int, seq<int>>, i: int)
    requires i in ch
    ensures Total(ch) == |ch[i]| + Total(ch - {i})
  {
    SumWithout(ChainSizes(ch), i);
    assert ChainSizes(ch) - {i} == ChainSizes(ch - {i});
  }

  lemma NeedWithout(files: Files, n: seq<byte>, cs: int)
    requires cs > 0 && n in files
    ensures Need(files, cs) == Units(|files[n].data|, cs) + Need(files - {n}, cs)
  {
    SumWithout(FileSizes(files, cs), n);
    assert FileSizes(files, cs) - {n} == FileSizes(files - {n}, cs);
  }

  lemma NeedChanged(files: Files, n: seq<byte>, f: File, cs: int)
    requires cs > 0
    ensures Need(files[n := f], cs) == Units(|f.data|, cs) + Need(files - {n}, cs)
  {
    NeedWithout(files[n := f], n, cs);
    assert files[n := f] - {n} == files - {n};
  }

  ghost function OwnedSet(ch: map<int, seq<int>>): set<int> {
    set i, c | i in ch && c in ch[i] :: c
  }

  lemma {:induction false} DistinctCount(cl: seq<int>)
    requires Distinct(cl)
    ensures |set c | c in cl| == |cl|
  {
    if cl != [] {
      var k := |cl| - 1;
      DistinctCount(cl[..k]);
      assert cl == cl[..k] + [cl[k]];
      assert (set c | c in cl) == (set c | c in cl[..k]) + {cl[k]};
    }
  }

  /** No chain visits a cluster twice, and no two share one.  */
  ghost predicate Apart(ch: map<int, seq<int>>) {
    && (forall i {:trigger i in ch} :: i in ch ==> Distinct(ch[i]))
    && (forall i, j, c {:trigger c in ch[i], c in ch[j]} :: i in ch && j in ch && c in ch[i] && c in ch[j] ==> i == j)
  }

  lemma OwnedWithout(ch: map<int, seq<int>>, i: int)
    requires Apart(ch) && i in ch
    ensures |OwnedSet(ch)| == |OwnedSet(ch - {i})| + |ch[i]| && Apart(ch - {i})
  {
    var rest, cl := ch - {i}, set c | c in ch[i];
    DistinctCount(ch[i]);
    hide Distinct;
    assert forall j {:trigger j in ch} :: j in ch && j != i ==> j in rest && rest[j] == ch[j];
    assert OwnedSet(ch) == OwnedSet(rest) + cl;
    assert OwnedSet(rest) * cl == {};
    assert Apart(rest);
  }

  /** Such chains own as many clusters as they have together.  */
  lemma {:induction false} OwnedCount(ch: map<int, seq<int>>)
    requires Apart(ch)
    ensures |OwnedSet(ch)| == Total(ch)
    decreases |ch|
  {
    if ch != map[] {
      var i := Pick(ch);
      OwnedWithout(ch, i);
      assert (ch - {i}).Keys == ch.Keys - {i};
      hide Apart, OwnedSet;
      OwnedCount(ch - {i});
      TotalWithout(ch, i);
    } else {
      assert ch == map[] && ChainSizes(ch) == map[];
      assert OwnedSet(ch) == {};
    }
  }

  /** Every cluster that files may use is free or in exactly one chain.  */
  lemma PoolCount(g: Geometry, m: Meta, ch: map<int, seq<int>>, w: int)
    requires g.Wf() && Consistent(g, m, ch, w)
    ensures |m.fat| == g.totclusters && |Pool(g, m, ch)| == |FreeSet(g, m.fat)| + Total(ch)
  {
    hide Fits, Sound, IsChain, Live, Special, Name, First, Points, Geometry.Wf;
    forall i | i in ch
      ensures Distinct(ch[i])
      ensures forall c :: c in ch[i] ==> 2 <= c < g.totclusters && m.fat[c] != 0
    {
      ChainDistinct(g, m, ch, w, i);
      FilePoints(m.dir, i);
      forall c | c in ch[i]
        ensures 2 <= c < g.totclusters && m.fat[c] != 0
      {
        var k :| 0 <= k < |ch[i]| && ch[i][k] == c;
        ChainUsed(g, m, i, ch[i], k);
      }
    }
    forall i, j, c {:trigger c in ch[i], c in ch[j]} | i in ch && j in ch && c in ch[i] && c in ch[j]
      ensures i == j
    {
      var a :| 0 <= a < |ch[i]| && ch[i][a] == c;
      var b :| 0 <= b < |ch[j]| && ch[j][b] == c;
      FilesApart(g, m, ch, w, i, a, j, b);
    }
    hide Consistent;
    assert Apart(ch);
    OwnedCount(ch);
    hide Distinct;
    forall c
      ensures c in OwnedSet(ch) <==> Owned(ch, c)
    {
    }
    assert Pool(g, m, ch) == FreeSet(g, m.fat) + OwnedSet(ch);
    assert FreeSet(g, m.fat) * OwnedSet(ch) == {};
  }

  // ------------------------------------------------- chains and file lengths

  /** How long the chain of a file of `size` bytes is.  An empty file that something
      else wrote may own a cluster.  */
  predicate Exact(n: int, size: nat, cs: int)
    requires cs > 0
  {
    n == Units(size, cs) || (size == 0 && n == 1)
  }

  lemma ExactIs(n: int, size: nat, cs: int)
    requires cs > 0 && Exact(n, size, cs)
    ensures n == Units(size, cs) + if n != 0 && size == 0 then 1 else 0
  {
    hide Units;
    UnitsIs(0, 0, cs);
  }

  lemma UnitsIs(n: int, size: nat, cs: int)
    requires cs > 0 && 0 <= n && n * cs - cs < size <= n * cs
    ensures Units(size, cs) == n
  {
    if size > 0 {
      assert size - 1 == (n - 1) * cs + (size - 1 - (n - 1) * cs);
      DivMod(n - 1, cs, size - 1 - (n - 1) * cs);
    } else if n > 0 {
      MulMono(1, n, cs);
    }
  }

  /** A file needs no more clusters than hold its bytes.  */
  lemma UnitsHold(size: nat, cs: int)
    requires cs > 0
    ensures size <= Units(size, cs) * cs
  {
    if size > 0 {
      var q, r := (size - 1) / cs, (size - 1) % cs;
      assert size - 1 == q * cs + r;
      assert (q + 1) * cs == q * cs + cs;
    }
  }

  lemma FitsExact(g: Geometry, n: nat, size: int)
    requires Fits(g, n, size)
    ensures g.ClusterSize() > 0 && 0 <= size && Exact(n, size, g.ClusterSize())
  {
    RoomIs(g, n);
    var cs := g.ClusterSize();
    assert cs > 0;
    hide Geometry.Spc, Geometry.ClusterSize;
    if Room(g, n) < size + cs {
      UnitsIs(n, size, cs);
    }
  }

  /** The slots of empty files that own a cluster nevertheless.  */
  ghost function Spare(dir: seq<Slot>, ch: map<int, seq<int>>, files: Files): set<int> {
    set i {:trigger i in ch} | i in ch && ch[i] != [] && 0 <= i < |dir| && Name(dir[i]) in files && files[Name(dir[i])].data == []
  }

  /** Slots with a chain and names of files go together.  */
  ghost predicate Paired(dir: seq<Slot>, ch: map<int, seq<int>>, files: Files) {
    && (forall i {:trigger i in ch} :: i in ch ==> 0 <= i < |dir| && Name(dir[i]) in files)
    && (forall i, j {:trigger i in ch, j in ch} :: i in ch && j in ch && Name(dir[i]) == Name(dir[j]) ==> i == j)
    && (forall n {:trigger n in files} :: n in files ==> exists i {:trigger i in ch} :: i in ch && 0 <= i < |dir| && Name(dir[i]) == n)
  }

  ghost predicate AllExact(dir: seq<Slot>, ch: map<int, seq<int>>, files: Files, cs: int)
    requires cs > 0 && Paired(dir, ch, files)
  {
    forall i {:trigger i in ch} :: i in ch ==> Exact(|ch[i]|, |files[Name(dir[i])].data|, cs)
  }

  lemma PairedWithout(dir: seq<Slot>, ch: map<int, seq<int>>, files: Files, i: int)
    requires Paired(dir, ch, files) && i in ch
    ensures Paired(dir, ch - {i}, files - {Name(dir[i])})
  {
    hide Name;
    var n := Name(dir[i]);
    forall x {:trigger x in files} | x in files - {n}
      ensures exists j {:trigger j in ch - {i}} :: j in ch - {i} && 0 <= j < |dir| && Name(dir[j]) == x
    {
      var j {:trigger j in ch} :| j in ch && 0 <= j < |dir| && Name(dir[j]) == x;
      assert j in ch - {i};
    }
  }

  /** The chains are as long as the files need, but for those of empty files.  */
  lemma {:induction false} NeedIs(dir: seq<Slot>, ch: map<int, seq<int>>, files: Files, cs: int)
    requires cs > 0 && Paired(dir, ch, files) && AllExact(dir, ch, files, cs)
    ensures Total(ch) == Need(files, cs) + |Spare(dir, ch, files)|
    decreases |ch|
  {
    hide Name, Exact;
    if ch != map[] {
      var i := Pick(ch);
      var n := Name(dir[i]);
      assert Exact(|ch[i]|, |files[n].data|, cs);
      ExactIs(|ch[i]|, |files[n].data|, cs);
      PairedWithout(dir, ch, files, i);
      assert (ch - {i}).Keys == ch.Keys - {i};
      NeedIs(dir, ch - {i}, files - {n}, cs);
      TotalWithout(ch, i);
      NeedWithout(files, n, cs);
      SpareWithout(dir, ch, files, i);
      hide Paired, AllExact, Total, Need, Spare, Units;
    } else {
      assert ch == map[] && files.Keys == {};
      assert ChainSizes(ch) == map[] && FileSizes(files, cs) == map[];
      assert Spare(dir, ch, files) == {};
    }
  }

  lemma SpareWithout(dir: seq<Slot>, ch: map<int, seq<int>>, files: Files, i: int)
    requires Paired(dir, ch, files) && i in ch
    ensures |Spare(dir, ch, files)| == |Spare(dir, ch - {i}, files - {Name(dir[i])})|
                                       + if ch[i] != [] && files[Name(dir[i])].data == [] then 1 else 0
  {
    hide Name;
    var s, s' := Spare(dir, ch, files), Spare(dir, ch - {i}, files - {Name(dir[i])});
    assert s' == s - {i};
  }

  // ----------------------------------------------------------------- volumes

  lemma VolumePaired(g: Geometry, d: Disk, m: Meta, ch: map<int, seq<int>>, w: int, pend: seq<byte>, files: Files)
    requires Consistent(g, m, ch, w) && Shows(g, d, m, ch, w, pend, files)
    ensures Paired(m.dir, ch, files)
  {
    hide Sound, IsChain, Fits, FileData, Name, Size, First, Locked, IsFile;
    forall n {:trigger n in files} | n in files
      ensures exists i {:trigger i in ch} :: i in ch && 0 <= i < |m.dir| && Name(m.dir[i]) == n
    {
      assert NameTaken(m, ch, n);
    }
  }

  /** A file that is not open for writing has as many clusters as its length needs,
      or is empty and has one.  */
  lemma FileExact(g: Geometry, d: Disk, m: Meta, ch: map<int, seq<int>>, w: int, pend: seq<byte>, files: Files, i: int)
    requires Holds(g, d) && Consistent(g, m, ch, w) && Shows(g, d, m, ch, w, pend, files) && i in ch && i != w
    ensures g.ClusterSize() > 0 && 0 <= i < |m.dir| && Name(m.dir[i]) in files
    ensures Exact(|ch[i]|, |files[Name(m.dir[i])].data|, g.ClusterSize())
  {
    hide Sound, Fits, Name, First, Locked, IsFile, Exact, FileBytes, Geometry.ClusterSize;
    FitsExact(g, |ch[i]|, Size(m.dir[i]));
    FitsRoom(g, |ch[i]|, Size(m.dir[i]));
    assert AllData(g, ch[i]);
  }

  lemma FitsRoom(g: Geometry, n: int, size: int)
    requires Fits(g, n, size)
    ensures 0 <= size <= Room(g, n)
  {
  }

  /** With no file open for writing: all clusters are free, or needed by the bytes of
      the files, or those of empty files.  */
  lemma ClosedCount(g: Geometry, d: Disk, m: Meta, ch: map<int, seq<int>>, files: Files)
    requires Holds(g, d) && Consistent(g, m, ch, -1) && Shows(g, d, m, ch, -1, [], files)
    ensures g.ClusterSize() > 0 && |m.fat| == g.totclusters
    ensures |Pool(g, m, ch)| == |FreeSet(g, m.fat)| + Need(files, g.ClusterSize()) + |Spare(m.dir, ch, files)|
  {
    VolumePaired(g, d, m, ch, -1, [], files);
    PoolCount(g, m, ch, -1);
    assert forall i {:trigger i in ch} :: i in ch ==> i != -1 by {
      hide Sound, IsChain, Fits, Name, Size, First, IsFile;
    }
    assert g.ClusterSize() > 0;
    var cs := g.ClusterSize();
    hide Geometry.ClusterSize, Exact, Name, Pool, FreeSet;
    forall i {:trigger i in ch} | i in ch
      ensures Exact(|ch[i]|, |files[Name(m.dir[i])].data|, cs)
    {
      FileExact(g, d, m, ch, -1, [], files, i);
    }
    hide Consistent, Shows;
    NeedIs(m.dir, ch, files, cs);
  }

  /** With the file in slot w open for writing: its own clusters besides.  */
  lemma WriterCount(g: Geometry, d: Disk, m: Meta, ch: map<int, seq<int>>, w: int, pend: seq<byte>, files: Files)
    requires Holds(g, d) && Consistent(g, m, ch, w) && Shows(g, d, m, ch, w, pend, files) && w in ch
    ensures g.ClusterSize() > 0 && |m.fat| == g.totclusters && 0 <= w < |m.dir| && Name(m.dir[w]) in files
    ensures |Pool(g, m, ch)| == |FreeSet(g, m.fat)| + |ch[w]| + Need(files - {Name(m.dir[w])}, g.ClusterSize())
                                + |Spare(m.dir, ch, files)| - (if ch[w] != [] && pend == [] then 1 else 0)
  {
    VolumePaired(g, d, m, ch, w, pend, files);
    PoolCount(g, m, ch, w);
    assert files[Name(m.dir[w])].data == pend by {
      hide FileData, Name, Locked, Size, Consistent;
    }
    assert g.ClusterSize() > 0;
    var n, rest, cs := Name(m.dir[w]), ch - {w}, g.ClusterSize();
    hide Geometry.ClusterSize, Exact, Name, Pool, FreeSet;
    PairedWithout(m.dir, ch, files, w);
    forall i {:trigger i in rest} | i in rest
      ensures Exact(|rest[i]|, |(files - {n})[Name(m.dir[i])].data|, cs)
    {
      FileExact(g, d, m, ch, w, pend, files, i);
    }
    hide Consistent, Shows;
    NeedIs(m.dir, rest, files - {n}, cs);
    SpareWithout(m.dir, ch, files, w);
    TotalWithout(ch, w);
  }

  /** How long the file open for writing can get.  */
  lemma WriterGrows(g: Geometry, d: Disk, m: Meta, ch: map<int, seq<int>>, w: int, pend: seq<byte>, files: Files, f: File)
    requires Holds(g, d) && Consistent(g, m, ch, w) && Shows(g, d, m, ch, w, pend, files) && w in ch && 0 <= w < |m.dir|
    requires |m.fat| == g.totclusters && g.ClusterSize() > 0
    requires Need(files[Name(m.dir[w]) := f], g.ClusterSize()) <= |Pool(g, m, ch)| - |Spare(m.dir, ch, files)|
    ensures |f.data| <= Room(g, |ch[w]| + |FreeSet(g, m.fat)|)
  {
    hide Consistent, Shows, Need, Spare, Pool, FreeSet, Name, Geometry.ClusterSize, Units, Room, Geometry.Wf;
    var cs, n := g.ClusterSize(), |ch[w]| + |FreeSet(g, m.fat)|;
    WriterCount(g, d, m, ch, w, pend, files);
    NeedChanged(files, Name(m.dir[w]), f, cs);
    UnitsHold(|f.data|, cs);
    RoomIs(g, n);
    MulMono(Units(|f.data|, cs), n, cs);
  }

  // ------------------------------------- no step adds to what is not needed

  lemma Fewer(a: set<int>, b: set<int>)
    requires a <= b
    ensures |a| <= |b|
  {
    assert b == a + (b - a);
  }

  /** Steps that concern the slot of one file, and its chain only if it has bytes.  */
  lemma SpareSame(dir: seq<Slot>, dir': seq<Slot>, ch: map<int, seq<int>>, w: int, cl: seq<int>, files: Files)
    requires |dir'| == |dir| && 0 <= w < |dir| && w in ch && Name(dir'[w]) == Name(dir[w])
    requires forall i :: 0 <= i < |dir| && i != w ==> dir'[i] == dir[i]
    requires cl == ch[w] || (Name(dir[w]) in files && files[Name(dir[w])].data != [])
    ensures Spare(dir', ch[w := cl], files) == Spare(dir, ch, files)
  {
    hide Name;
  }

  /** A file gets longer.  */
  lemma SpareLonger(dir: seq<Slot>, ch: map<int, seq<int>>, files: Files, n: seq<byte>, f: File)
    requires n in files && (files[n].data != [] ==> f.data != [])
    ensures |Spare(dir, ch, files[n := f])| <= |Spare(dir, ch, files)|
  {
    hide Name;
    Fewer(Spare(dir, ch, files[n := f]), Spare(dir, ch, files));
  }

  /** A file gives up its chain, and its name or its bytes.  */
  lemma SpareFreed(dir: seq<Slot>, dir': seq<Slot>, ch: map<int, seq<int>>, ch': map<int, seq<int>>, k: int,
                   files: Files, files': Files)
    requires Paired(dir, ch, files) && k in ch && |dir'| == |dir|
    requires forall i :: 0 <= i < |dir| && i != k ==> dir'[i] == dir[i]
    requires ch' == ch - {k} || ch' == ch[k := []]
    requires forall n :: n in files && n != Name(dir[k]) ==> n in files' && files'[n] == files[n]
    ensures |Spare(dir', ch', files')| <= |Spare(dir, ch, files)|
  {
    hide Name;
    Fewer(Spare(dir', ch', files'), Spare(dir, ch, files));
  }

  /** A new empty file without a cluster.  */
  lemma SpareCreated(dir: seq<Slot>, dir': seq<Slot>, ch: map<int, seq<int>>, f: int, files: Files, n: seq<byte>)
    requires Paired(dir, ch, files) && f !in ch && |dir'| == |dir| && n !in files
    requires forall i {:trigger i in ch} :: i in ch ==> 0 <= i < |dir| && dir'[i] == dir[i]
    ensures |Spare(dir', ch[f := []], files[n := File(false, [])])| <= |Spare(dir, ch, files)|
  {
    hide Name;
    Fewer(Spare(dir', ch[f := []], files[n := File(false, [])]), Spare(dir, ch, files));
  }

  /** Giving up a chain.  */
  lemma FreedTidy(g: Geometry, d: Disk, m: Meta, ch: map<int, seq<int>>, k: int, m': Meta, ch': map<int, seq<int>>,
                  files: Files, files': Files)
    requires Consistent(g, m, ch, -1) && Shows(g, d, m, ch, -1, [], files) && k in ch && 0 <= k < |m.dir| == |m'.dir|
    requires m'.dir == m.dir[k := m'.dir[k]] && (m'.dir[k][0] != 0 || Name(m'.dir[k]) == Name(m.dir[k]))
    requires ch' == ch - {k} || ch' == ch[k := []]
    requires forall n :: n in files && n != Name(m.dir[k]) ==> n in files' && files'[n] == files[n]
    ensures |Spare(m'.dir, ch', files')| <= |Spare(m.dir, ch, files)|
    ensures NoStale(HeadsOf(m.dir)) ==> NoStale(HeadsOf(m'.dir))
  {
    VolumePaired(g, d, m, ch, -1, [], files);
    hide Sound, IsChain, Fits, Name, Size, First, Shows;
    assert IsFile(m.dir, k);
    hide Consistent;
    SpareFreed(m.dir, m'.dir, ch, ch', k, files, files');
    if NoStale(HeadsOf(m.dir)) {
      if m'.dir[k][0] == 0 {
        HeadsKept(m.dir, m'.dir, k);
      } else {
        DeletedNoStale(m.dir, k, m'.dir[k]);
      }
    }
  }

  /** Creating a file.  */
  lemma CreatedTidy(g: Geometry, d: Disk, m: Meta, ch: map<int, seq<int>>, f: int, e: Slot, m': Meta, files: Files, n: seq<byte>)
    requires Consistent(g, m, ch, -1) && Shows(g, d, m, ch, -1, [], files) && f !in ch && n !in files
    requires Created(m.dir, m'.dir, f, e) && e[0] != 0 && e[0] != 0xe5
    ensures |Spare(m'.dir, ch[f := []], files[n := File(false, [])])| <= |Spare(m.dir, ch, files)|
    ensures NoStale(HeadsOf(m.dir)) ==> NoStale(HeadsOf(m'.dir))
  {
    VolumePaired(g, d, m, ch, -1, [], files);
    CreatedLive(m.dir, m'.dir, f, e);
    hide Sound, IsChain, Fits, Name, Size, First, Shows, Live, Special;
    assert |m'.dir| == |m.dir|;
    forall i {:trigger i in ch} | i in ch
      ensures 0 <= i < |m.dir| && m'.dir[i] == m.dir[i]
    {
      assert IsFile(m.dir, i);
    }
    if NoStale(HeadsOf(m.dir)) {
      CreatedNoStale(m.dir, m'.dir, f, e);
    }
    hide Consistent, Created;
    SpareCreated(m.dir, m'.dir, ch, f, files, n);
  }
}
