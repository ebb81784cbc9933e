/** Two objects on one volume: one lists the root directory while the other opens
    each file that is listed.  */
module Browse {
  import opened Bytes
  import opened Arith
  import opened Layout
  import opened Fat
  import opened Content
  import opened Cache
  import opened Names
  import opened Listing
  import opened FileState
  import opened FileSystem

  /** What follows the zero that ends a file name does not matter.  */
  lemma PaddedText(b: seq<byte>, w: seq<byte>)
    requires HoldsText(b, 0, w + [0]) && forall k :: 0 <= k < |w| ==> w[k] != 0
    ensures Padded(b) == Padded(w)
  {
    assert forall k :: 0 <= k < |w| ==> b[k] == w[k] by {
      assert forall k :: 0 <= k < |w| ==> b[0..|w| + 1][k] == w[k];
    }
    assert b[|w|] == b[0..|w| + 1][|w|] == 0;
    var d := BaseEnd(w, 0);
    BaseEndAt(b, 0, d);
    var e := ExtStart(w);
    StringEndAt(w, e, |w|);
    StringEndAt(b, e, |w|);
    assert b[..d] == w[..d] && b[e..|w|] == w[e..|w|];
  }

  lemma PrintedPlain(n: seq<byte>)
    requires |n| == 11 && Typable(n)
    ensures forall k :: 0 <= k < |Printed(n)| ==> Printed(n)[k] != 0
  {
    var x, y := Trimmed(n[..8]), Trimmed(n[8..]);
    assert forall k :: 0 <= k < |x| ==> x[k] == n[..8][k] == n[k];
    assert forall k :: 0 <= k < |y| ==> y[k] == n[8..][k] == n[8 + k];
  }

  /** Opening the printed name, as it stands in the buffer, looks for the file that
      was listed.  */
  lemma PrintedOpens(was: seq<byte>, b: seq<byte>, n: seq<byte>)
    requires |n| == 11 && Typable(n) && StringPut(was, b, 0, Printed(n))
    ensures Padded(b) == n
  {
    PrintedPlain(n);
    PaddedText(b, Printed(n));
    PrintParse(n);
  }

  /** A listing names exactly the files of the volume (those in the slots that the code
      looks at), each once.  */
  lemma ListingIsFiles(f: Fsrw)
    requires f.Inv() && f.cur == Closed
    ensures var es := Entries(f.vol.M().dir, 0);
            && (forall n {:trigger n in es} :: n in es <==> n in f.vol.files)
            && (forall a, b :: 0 <= a < b < |es| ==> es[a] != es[b])
  {
    hide MetaOf, Volume.L, Volume.Valid, FileData, Crash, Sound, IsChain, Fits, Name, Size, First, Locked, IsFile;
    var m, ch, files := f.vol.M(), f.vol.chains, f.vol.files;
    var es := Entries(m.dir, 0);
    EntriesFrom(m.dir, 0);
    forall i | IsFile(m.dir, i)
      ensures 0 <= i < |m.dir|
    {
      InDir(m.dir, i);
    }
    forall n {:trigger n in es}
      ensures n in es <==> n in files
    {
      if n in es {
        var i :| 0 <= i && IsFile(m.dir, i) && Name(m.dir[i]) == n;
        assert i in ch;
      }
      if n in files {
        assert NameTaken(m, ch, n);
        var i {:trigger i in ch} :| i in ch && 0 <= i < |m.dir| && Name(m.dir[i]) == n;
        assert IsFile(m.dir, i);
      }
    }
    forall i, j {:trigger IsFile(m.dir, i), IsFile(m.dir, j)} | IsFile(m.dir, i) && IsFile(m.dir, j) && Name(m.dir[i]) == Name(m.dir[j])
      ensures i == j
    {
      assert i in ch && j in ch;
    }
  }

  lemma InDir(dir: seq<Slot>, i: int)
    requires IsFile(dir, i)
    ensures 0 <= i < |dir|
  {
  }

  /** Two objects without an open file on one volume, and a buffer for a name; all
      names can be typed.  */
  ghost predicate Pair(lister: Fsrw, opener: Fsrw, tbuf: array<byte>)
    reads lister, lister.buf, opener, opener.buf, lister.vol, lister.vol.buf2
  {
    && lister != opener && lister.vol == opener.vol && lister.Inv() && opener.Inv()
    && lister.cur == Closed && opener.cur == Closed
    && opener.buf != lister.buf && tbuf.Length == 13 && tbuf != lister.buf && tbuf != opener.buf
    && lister.vol.padname.Length == 11 && tbuf != lister.vol.buf2 && tbuf != lister.vol.padname
    && lister.vol.padname != lister.buf && lister.vol.padname != opener.buf && lister.vol.padname != lister.vol.buf2
    && forall n :: n in lister.vol.files ==> |n| == 11 && Typable(n)
  }

  /** Opens the file whose printed name stands in `tbuf` and closes it again.  */
  method SizeOf(opener: Fsrw, tbuf: array<byte>, ghost n: seq<byte>) returns (size: int)
    requires opener.Inv() && opener.cur == Closed && n in opener.vol.files
    requires opener.vol.padname.Length == 11 && |n| == 11 && n[0] != 0xe5 && Padded(tbuf[..]) == n
    modifies opener, opener.buf, opener.vol, opener.vol.buf2, opener.vol.padname
    ensures opener.Inv() && opener.cur == Closed && opener.OnlyRead()
    ensures size == |opener.vol.files[n].data|
  {
    hide MetaOf, Volume.L, Volume.Valid, Fsrw.Inv, Padded, Fsrw.Text;
    var r := opener.POpen(tbuf[..], MODE_R, 0);
    opener.ReaderPos();
    size := opener.filesize;
    r := opener.PClose();
  }

  /** Copies the string in `tbuf`, up to the zero.  */
  method TakeText(tbuf: array<byte>, ghost w: seq<byte>) returns (text: seq<byte>)
    requires HoldsText(tbuf[..], 0, w + [0]) && forall k :: 0 <= k < |w| ==> w[k] != 0
    ensures text == w
  {
    var k := 0;
    assert forall i :: 0 <= i <= |w| ==> tbuf[i] == tbuf[..][0..|w| + 1][i];
    while tbuf[k] != 0
      invariant 0 <= k <= |w|
      decreases |w| - k
    {
      k := k + 1;
    }
    assert tbuf[..k] == tbuf[..][0..|w| + 1][..k];
    return tbuf[..k];
  }

  /** What the loop below knows of the name just listed.  */
  lemma ListedName(f: Fsrw, n: seq<byte>, k: nat, was: seq<byte>, b: seq<byte>)
    requires f.vol.Valid() && k < |f.vol.M().dir| && !Ends(f.vol.M().dir, k) && Listed(f.vol.M().dir[k]) && n == Name(f.vol.M().dir[k])
    requires Typable(n) && StringPut(was, b, 0, Printed(n))
    ensures |n| == 11 && n[0] != 0xe5 && Padded(b) == n
    ensures HoldsText(b, 0, Printed(n) + [0]) && forall i :: 0 <= i < |Printed(n)| ==> Printed(n)[i] != 0
  {
    PrintedPlain(n);
    PrintedOpens(was, b, n);
  }

  /** The next file: its printed name and its size.  */
  method NextStat(lister: Fsrw, opener: Fsrw, tbuf: array<byte>, ghost at0: int)
    returns (done: bool, text: seq<byte>, size: int, ghost at: int)
    requires Pair(lister, opener, tbuf) && lister.Lists(at0) && lister.vol.Valid() && NoEnd(lister.vol.M().dir, at0)
    modifies lister, lister.buf, opener, opener.buf, opener.vol, opener.vol.buf2, opener.vol.padname, tbuf
    ensures Pair(lister, opener, tbuf) && lister.OnlyRead() && lister.Lists(at) && 0 <= at0 <= at <= |lister.vol.M().dir|
    ensures var dir, k := lister.vol.M().dir, NextSlot(lister.vol.M().dir, at0);
            if done then Ends(dir, k)
            else
              && !Ends(dir, k) && at == k + 1 && NoEnd(dir, at) && Name(dir[k]) in lister.vol.files
              && text == Printed(Name(dir[k])) && size == |lister.vol.files[Name(dir[k])].data|
  {
    hide MetaOf, Volume.L, Volume.Valid, Fsrw.Inv, Fsrw.Lists, Padded, Printed, Name, Typable, Special, Crash;
    done, text, size := false, [], 0;
    ghost var was := tbuf[..];
    lister.ClosedFacts();
    lister.ListSetting(at0);
    var r;
    r, at := lister.NextFile(tbuf, 0, at0);
    lister.ClosedFacts();
    lister.ListSetting(at);
    opener.ClosedStays();
    if r.value != 0 {
      done := true;
      return;
    }
    ghost var k := NextSlot(lister.vol.M().dir, at0);
    ghost var n := Name(lister.vol.M().dir[k]);
    ListedFile(lister, k);
    ListedName(lister, n, k, was, tbuf[..]);
    text := TakeText(tbuf, Printed(n));
    label before:
    size := SizeOf(opener, tbuf, n);
    opener.ClosedFacts();
    lister.ClosedStays@before();
    lister.ListStays@before(at);
  }

  lemma ListedFile(f: Fsrw, k: nat)
    requires f.Inv() && f.cur == Closed && k < |f.vol.M().dir| && !Ends(f.vol.M().dir, k) && Listed(f.vol.M().dir[k])
    requires NoEnd(f.vol.M().dir, k)
    ensures Name(f.vol.M().dir[k]) in f.vol.files
  {
    hide MetaOf, Volume.L, Volume.Valid, FileData, Crash, Sound, IsChain, Fits, Name, Size, First, Locked;
    assert IsFile(f.vol.M().dir, k);
    assert k in f.vol.chains;
  }

  /** Lists the root directory, opening every file on the way to learn its size.  */
  method GetStats(lister: Fsrw, opener: Fsrw, tbuf: array<byte>) returns (shown: seq<seq<byte>>, sizes: seq<int>)
    requires Pair(lister, opener, tbuf)
    requires 0 <= lister.vol.geo.rootdir - SECTORSIZE * lister.vol.geo.dataregion < 0x8000_0000
    modifies lister, lister.buf, opener, opener.buf, opener.vol, opener.vol.buf2, opener.vol.padname, tbuf
    ensures Pair(lister, opener, tbuf) && lister.OnlyRead()
    ensures var names := Entries(lister.vol.M().dir, 0);
            && |shown| == |sizes| == |names|
            && forall i :: 0 <= i < |names| ==>
                 |names[i]| == 11 && names[i] in lister.vol.files && shown[i] == Printed(names[i])
                 && sizes[i] == |lister.vol.files[names[i]].data|
  {
    hide MetaOf, Volume.L, Volume.Valid, Fsrw.Inv, Fsrw.Lists, Fsrw.Opened, Padded, Printed, Name, Typable, Special, Crash;
    shown, sizes := [], [];
    lister.ClosedFacts();
    var r := lister.OpenDir();
    lister.ClosedFacts();
    opener.ClosedStays();
    ghost var at, dir := 0, lister.vol.M().dir;
    ghost var names := Entries(dir, 0);
    while true
      invariant Pair(lister, opener, tbuf) && lister.OnlyRead() && lister.vol.M().dir == dir
      invariant lister.Lists(at) && 0 <= at <= |dir| && NoEnd(dir, at)
      invariant |shown| == |sizes| <= |names| && names[|shown|..] == Entries(dir, at)
      invariant forall i :: 0 <= i < |shown| ==>
                  |names[i]| == 11 && names[i] in lister.vol.files && shown[i] == Printed(names[i])
                  && sizes[i] == |lister.vol.files[names[i]].data|
      decreases |names| - |shown|
    {
      ghost var rest := Entries(dir, at);
      EntriesNext(dir, at);
      var done, text, size;
      done, text, size, at := NextStat(lister, opener, tbuf, at);
      if done {
        return;
      }
      assert rest[0] == names[|shown|];
      shown, sizes := shown + [text], sizes + [size];
      assert names[|shown|..] == rest[1..];
    }
  }
}
