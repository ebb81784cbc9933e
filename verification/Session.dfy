/** Whole runs of one object: what the operations do to a map from names to byte
    sequences, and that the buffers, chains and links of fsrw do just that.  */
module Session {
  import opened Bytes
  import opened Arith
  import opened Layout
  import opened Fat
  import opened Content
  import opened Updates
  import opened Counting
  import opened Cache
  import opened Names
  import opened FileState
  import opened FileSystem

  // --------------------------------------------------------- the simple form

  datatype Handle = Idle | Reader(name: seq<byte>, pos: nat) | Writer(name: seq<byte>)

  datatype Spec = Spec(files: Files, open: Handle) {
    /** The open file exists, and its reader is inside it.  */
    predicate Ok() {
      match open
      case Idle => true
      case Reader(n, p) => n in files && p <= |files[n].data|
      case Writer(n) => n in files
    }
  }

  /** The date that a created file gets does not show in the simple form.  */
  datatype Op = Open(name: seq<byte>, mode: byte, date: int) | Write(data: seq<byte>) | Putc(c: byte) | Flush | Close
              | Read(count: int) | Getc

  /** What an operation answers, with the bytes that it hands over.  A program does
      not write without a file open for writing, nor read without one open for
      reading, nor write a file of 2 gigabytes.  */
  datatype Out = Skipped | Did(result: Result<int>, data: seq<byte>)

  function Append(files: Files, n: seq<byte>, more: seq<byte>): Files
    requires n in files
  {
    files[n := File(files[n].locked, files[n].data + more)]
  }

  ghost predicate OpenStep(s: Spec, n: seq<byte>, mode: byte, out: Out, s': Spec)
    requires |n| == 11
  {
    if n[0] == 0xe5 then out == Skipped && s' == s
    else if n in s.files then
      var r := OpenedResult(s.files, n, mode);
      && out == Did(r, []) && s'.files == OpenedFiles(s.files, n, mode)
      && s'.open == (if r.Abort? || mode == MODE_D then Idle else if mode == MODE_R then Reader(n, 0) else Writer(n))
    else if mode != MODE_W && mode != MODE_A then out == Did(Result.Ok(-1), []) && s' == Spec(s.files, Idle)
    else
      // a full root directory is the one thing that this form does not know of
      || (out == Did(Result.Ok(0), []) && s' == Spec(s.files[n := File(false, [])], Writer(n)))
      || (out == Did(Abort(-2), []) && s' == Spec(s.files, Idle))
  }

  ghost predicate WriteStep(s: Spec, more: seq<byte>, r: int, out: Out, s': Spec)
    requires s.Ok()
  {
    if s.open.Writer? && |s.files[s.open.name].data| + |more| < 0x8000_0000 then
      out == Did(Result.Ok(r), []) && s' == Spec(Append(s.files, s.open.name, more), s.open)
    else out == Skipped && s' == s
  }

  /** The fill of the buffer, which is what pflush and pclose return.  */
  ghost predicate Fill(v: int, size: int) {
    0 <= v <= SECTORSIZE && v % SECTORSIZE == size % SECTORSIZE
  }

  ghost predicate ReadStep(s: Spec, count: int, out: Out, s': Spec)
    requires s.Ok()
  {
    if s.open.Reader? then
      var text, p := s.files[s.open.name].data, s.open.pos;
      var n := if count > 0 then Min(count, |text| - p) else 0;
      out == Did(Result.Ok(if n == 0 && count > 0 then -1 else n), text[p..p + n]) && s' == s.(open := s.open.(pos := p + n))
    else out == Skipped && s' == s
  }

  ghost predicate GetcStep(s: Spec, out: Out, s': Spec)
    requires s.Ok()
  {
    if s.open.Reader? then
      var text, p := s.files[s.open.name].data, s.open.pos;
      if p == |text| then out == Did(Result.Ok(-1), []) && s' == s
      else out == Did(Result.Ok(text[p]), [text[p]]) && s' == s.(open := s.open.(pos := p + 1))
    else out == Skipped && s' == s
  }

  ghost predicate Step(s: Spec, op: Op, out: Out, s': Spec)
    requires s.Ok()
  {
    match op
    case Open(name, mode, _) => OpenStep(s, Padded(name), mode, out, s')
    case Write(data) => WriteStep(s, data, |data|, out, s')
    case Putc(c) => WriteStep(s, [c], 0, out, s')
    case Flush =>
      && s' == s
      && if s.open.Writer? then out.Did? && out.data == [] && out.result.Ok? && Fill(out.result.value, |s.files[s.open.name].data|)
         else out == Did(Abort(-27), [])
    case Close =>
      && s' == Spec(s.files, Idle)
      && if s.open.Writer? then out.Did? && out.data == [] && out.result.Ok? && Fill(out.result.value, |s.files[s.open.name].data|)
         else out == Did(Result.Ok(0), [])
    case Read(count) => ReadStep(s, count, out, s')
    case Getc => GetcStep(s, out, s')
  }

  lemma StepOk(s: Spec, op: Op, out: Out, s': Spec)
    requires s.Ok() && Step(s, op, out, s')
    ensures s'.Ok()
  {
    hide Padded;
  }

  /** A run: the states before and after each operation.  */
  ghost predicate IsRun(states: seq<Spec>, ops: seq<Op>, outs: seq<Out>) {
    && |states| == |ops| + 1 && |outs| == |ops|
    && (forall i {:trigger states[i].Ok()} :: 0 <= i < |states| ==> states[i].Ok())
    && (forall i {:trigger ops[i]} {:trigger outs[i]} :: 0 <= i < |ops| ==> Step(states[i], ops[i], outs[i], states[i + 1]))
  }

  // ------------------------------------------------- what fsrw is to its user

  /** The state of an object and its volume in the simple form.  */
  ghost function Abs(f: Fsrw): Spec
    reads f, f.vol, f.vol.buf2
  {
    Spec(f.vol.files,
         match f.cur
         case Closed => Idle
         case Reading(_, _) => Reader(f.Key(), if f.Tell() >= 0 then f.Tell() else 0)
         case Writing(_) => Writer(f.Key()))
  }

  /** Whatever the operation comes to, the files need no more clusters than `room`
      afterwards.  */
  ghost predicate Affords(s: Spec, op: Op, room: int, cs: int)
    requires s.Ok() && cs > 0
  {
    forall out, s' {:trigger Step(s, op, out, s')} :: Step(s, op, out, s') && s'.Ok() ==> Need(s'.files, cs) <= room
  }

  /** So it is after every operation of every run of them from `s` on.  */
  ghost predicate HasRoom(s: Spec, ops: seq<Op>, room: int, cs: int)
    requires cs > 0
  {
    forall states: seq<Spec>, outs: seq<Out> {:trigger IsRun(states, ops[..|outs|], outs)} ::
      0 < |outs| <= |ops| && IsRun(states, ops[..|outs|], outs) && states[0] == s ==> Need(states[|outs|].files, cs) <= room
  }

  /** What holds of an object between two operations.  */
  ghost predicate Ready(f: Fsrw)
    reads f, f.buf, f.vol, f.vol.buf2
  {
    f.Inv() && f.vol.padname.Length == 11 && f.vol.padname != f.buf && f.vol.padname != f.vol.buf2
  }

  predicate Opens(op: Op, name: seq<byte>, mode: byte) { op.Open? && op.name == name && op.mode == mode }

  /** The operation has created a file.  */
  predicate Creates(s: Spec, op: Op, out: Out) {
    op.Open? && Padded(op.name) !in s.files && out == Did(Result.Ok(0), [])
  }

  /** What an operation does and keeps.  Only the creation of a file where stale slots
      follow the end mark can make an image unsound.  */
  twostate predicate Did1(f: Fsrw, op: Op, new out: Out)
    reads f, f.buf, f.vol, f.vol.buf2
  {
    && Ready(f) && old(Abs(f).Ok()) && Step(old(Abs(f)), op, out, Abs(f))
    && f.vol.geo == old(f.vol.geo) && f.Clusters() == old(f.Clusters())
    && f.Space() >= old(f.Space()) && (old(NoStale(f.Heads())) ==> NoStale(f.Heads()))
    && (old(f.vol.exposed) ==> f.vol.exposed)
    && (f.vol.exposed ==> old(f.vol.exposed) || (Creates(old(Abs(f)), op, out) && old(Exposing(f.Heads()))))
  }

  lemma AbsOk(f: Fsrw)
    requires f.Inv()
    ensures Abs(f).Ok() && f.vol.Valid()
    ensures f.cur.Reading? ==> Abs(f) == Spec(f.vol.files, Reader(f.Key(), f.Tell())) && f.vol.files[f.Key()].data == f.Text() && 0 <= f.Tell() <= |f.Text()|
    ensures f.cur.Writing? ==> Abs(f) == Spec(f.vol.files, Writer(f.Key())) && f.vol.files[f.Key()].data == f.Pending() && |f.Pending()| == f.floc + f.bufat
    ensures f.cur.Closed? ==> Abs(f) == Spec(f.vol.files, Idle)
  {
    hide Fsrw.Key, Fsrw.Text, Fsrw.Pending;
    f.KeyKnown();
    if f.cur.Reading? {
      f.ReaderPos();
    }
    if f.cur.Writing? {
      f.PendingLength();
    }
    hide Fsrw.Inv;
  }

  method DoOpen(f: Fsrw, name: seq<byte>, mode: byte, date: int) returns (out: Out)
    requires Ready(f)
    modifies f, f.buf, f.vol, f.vol.buf2, f.vol.padname
    ensures Did1(f, Open(name, mode, date), out)
    ensures (out.Did? && out.result == Result.Ok(0) && mode == MODE_R) || (out == Skipped && old(f.cur.Reading?)) <==> f.cur.Reading?
  {
    hide MetaOf, Volume.L, Volume.Valid, Volume.M, Fsrw.Inv, Padded, Fsrw.Key, Fsrw.Text, Fsrw.Pending, Fsrw.RoomFor, Pool, Fsrw.DirFull;
    AbsOk(f);
    if Padded(name)[0] == 0xe5 {
      return Skipped;
    }
    var r := f.POpen(name, mode, date);
    AbsOk(f);
    return Did(r, []);
  }

  /** What a write needs fits the file that it writes to.  */
  lemma Afforded(f: Fsrw, op: Op, data: seq<byte>)
    requires f.Inv() && f.cur.Writing? && Abs(f).Ok() && Affords(Abs(f), op, f.Space(), f.vol.geo.ClusterSize())
    requires op == Write(data) || (op.Putc? && data == [op.c])
    requires f.floc + f.bufat + |data| < 0x8000_0000
    ensures f.floc + f.bufat + |data| <= f.Capacity()
  {
    hide MetaOf, Volume.L, Volume.Valid, Volume.M, Fsrw.Inv, Fsrw.Key, Fsrw.Text, Fsrw.Pending, Fsrw.Capacity, Fsrw.Space, Need;
    AbsOk(f);
    var s, n := Abs(f), f.Key();
    var s' := Spec(Append(s.files, n, data), s.open);
    var out := Did(Result.Ok(if op.Write? then |data| else 0), []);
    assert Step(s, op, out, s');
    f.RoomToGrow(s'.files[n]);
  }

  method DoWrite(f: Fsrw, op: Op) returns (out: Out)
    requires Ready(f) && (op.Write? || op.Putc?) && Abs(f).Ok() && Affords(Abs(f), op, f.Space(), f.vol.geo.ClusterSize())
    modifies f, f.buf, f.vol, f.vol.buf2
    ensures Did1(f, op, out) && f.cur == old(f.cur)
  {
    hide MetaOf, Volume.L, Volume.Valid, Volume.M, Fsrw.Inv, Fsrw.Key, Fsrw.Text, Fsrw.Pending, Fsrw.Capacity, Pool;
    AbsOk(f);
    f.WriterSlot();
    var data := if op.Write? then op.data else [op.c];
    if f.direntry == 0 || f.floc + f.bufat + |data| >= 0x8000_0000 {
      return Skipped;
    }
    Afforded(f, op, data);
    var r;
    if op.Write? {
      r := f.PWrite(data, |data|);
      assert data[..|data|] == data;
    } else {
      r := f.PPutc(op.c);
    }
    AbsOk(f);
    return Did(r, []);
  }

  method DoFlush(f: Fsrw) returns (out: Out)
    requires Ready(f)
    modifies f, f.buf, f.vol, f.vol.buf2
    ensures Did1(f, Flush, out) && f.cur == old(f.cur)
  {
    hide MetaOf, Volume.L, Volume.Valid, Volume.M, Fsrw.Inv, Fsrw.Key, Fsrw.Text, Fsrw.Pending, Fsrw.Capacity, Pool, Fsrw.Recorded, Fsrw.Stored;
    AbsOk(f);
    f.BufferFill();
    var r := f.PFlush();
    AbsOk(f);
    return Did(r, []);
  }

  method DoClose(f: Fsrw) returns (out: Out)
    requires Ready(f)
    modifies f, f.buf, f.vol, f.vol.buf2
    ensures Did1(f, Close, out) && f.cur == Closed
  {
    hide MetaOf, Volume.L, Volume.Valid, Volume.M, Fsrw.Inv, Fsrw.Key, Fsrw.Text, Fsrw.Pending, Pool;
    AbsOk(f);
    f.BufferFill();
    var r := f.PClose();
    AbsOk(f);
    return Did(r, []);
  }

  method DoRead(f: Fsrw, count: int, reading: bool) returns (out: Out)
    requires Ready(f) && (reading <==> f.cur.Reading?)
    modifies f, f.buf, f.vol, f.vol.buf2
    ensures Did1(f, Read(count), out) && (f.cur.Reading? <==> reading)
  {
    hide MetaOf, Volume.L, Volume.Valid, Fsrw.Inv, Fsrw.Key, Fsrw.Text, Fsrw.Pending, Pool;
    AbsOk(f);
    if !reading {
      return Skipped;
    }
    var ubuf := new byte[if count > 0 then count else 0];
    var r := f.PRead(ubuf, 0, count);
    AbsOk(f);
    return Did(r, if r.value > 0 then ubuf[..r.value] else []);
  }

  method DoGetc(f: Fsrw, reading: bool) returns (out: Out)
    requires Ready(f) && (reading <==> f.cur.Reading?)
    modifies f, f.buf, f.vol, f.vol.buf2
    ensures Did1(f, Getc, out) && (f.cur.Reading? <==> reading)
  {
    hide MetaOf, Volume.L, Volume.Valid, Fsrw.Inv, Fsrw.Key, Fsrw.Text, Fsrw.Pending, Pool;
    AbsOk(f);
    if !reading {
      return Skipped;
    }
    var r := f.PGetc();
    AbsOk(f);
    return Did(r, if r.value >= 0 then [r.value] else []);
  }

  /** One operation.  */
  method Do(f: Fsrw, op: Op, reading: bool) returns (out: Out, reading': bool)
    requires Ready(f) && (reading <==> f.cur.Reading?) && Abs(f).Ok() && Affords(Abs(f), op, f.Space(), f.vol.geo.ClusterSize())
    modifies f, f.buf, f.vol, f.vol.buf2, f.vol.padname
    ensures Did1(f, op, out) && (reading' <==> f.cur.Reading?)
  {
    hide Did1, Ready, Affords;
    reading' := reading;
    match op {
      case Open(name, mode, date) =>
        out := DoOpen(f, name, mode, date);
        if out.Did? {
          reading' := out.result == Result.Ok(0) && mode == MODE_R;
        }
      case Write(data) => out := DoWrite(f, op);
      case Putc(c) => out := DoWrite(f, op);
      case Flush => out := DoFlush(f);
      case Close =>
        out := DoClose(f);
        reading' := false;
      case Read(count) => out := DoRead(f, count, reading);
      case Getc => out := DoGetc(f, reading);
    }
  }

  /** Some operation has created a file when the directory, whose first bytes were
      `heads`, had stale slots behind an end mark at the end of its sector.  */
  ghost predicate Exposed(states: seq<Spec>, ops: seq<Op>, outs: seq<Out>, heads: seq<seq<byte>>) {
    && |ops| == |outs| <= |states| && |outs| <= |heads|
    && exists i {:trigger outs[i]} :: 0 <= i < |outs| && Creates(states[i], ops[i], outs[i]) && Exposing(heads[i])
  }

  /** Any sequence of operations for which there is room, what is given back on the
      way included, is a run of the simple form.  It loses no cluster, and `exposed`
      says exactly whether some disk image that a power failure could have left
      behind is not sound; only the creation of a file can have done that, and only
      with stale slots.  `heads` are the first bytes of the directory slots in each
      state; `reading0` says whether a file is open for reading.  */
  method Run(f: Fsrw, ops: seq<Op>, reading0: bool) returns (outs: seq<Out>, ghost states: seq<Spec>, ghost heads: seq<seq<byte>>)
    requires Ready(f) && (reading0 <==> f.cur.Reading?) && HasRoom(Abs(f), ops, f.Space(), f.vol.geo.ClusterSize())
    modifies f, f.buf, f.vol, f.vol.buf2, f.vol.padname
    ensures Ready(f) && IsRun(states, ops, outs)
    ensures states[0] == old(Abs(f)) && states[|ops|] == Abs(f)
    ensures |heads| == |states| && heads[0] == old(f.Heads()) && heads[|ops|] == f.Heads()
    ensures f.Clusters() == old(f.Clusters()) && f.Space() >= old(f.Space())
    ensures Crash(f.vol.geo, f.vol.trail, f.vol.exposed)
    ensures old(f.vol.exposed) ==> f.vol.exposed
    ensures f.vol.exposed ==> old(f.vol.exposed) || Exposed(states, ops, outs, heads)
    ensures old(NoStale(f.Heads()) && !f.vol.exposed) ==>
              NoStale(f.Heads()) && !f.vol.exposed && AllSound(f.vol.geo, f.vol.trail, 0)
  {
    hide MetaOf, Volume.L, Volume.Valid, Volume.M, Fsrw.Inv, Fsrw.Key, Fsrw.Text, Fsrw.Pending, Fsrw.Space, Pool, Step, Abs, Crash;
    hide NoStale, Fsrw.Heads, Exposing, AllSound, Affords, HasRoom, Need, Fsrw.Clusters, Spec.Ok, Geometry.Spc, Exposed, Creates;
    AbsOk(f);
    outs, states, heads := [], [Abs(f)], [f.Heads()];
    var reading := reading0;
    ghost var cs, space := f.vol.geo.ClusterSize(), f.Space();
    while |outs| < |ops|
      invariant Ready(f) && f.vol.geo == old(f.vol.geo) && (reading <==> f.cur.Reading?)
      invariant |outs| <= |ops| && f.Space() >= space && cs == f.vol.geo.ClusterSize() > 0
      invariant IsRun(states, ops[..|outs|], outs) && states[0] == old(Abs(f)) && states[|outs|] == Abs(f)
      invariant |heads| == |states| && heads[0] == old(f.Heads()) && heads[|outs|] == f.Heads()
      invariant Abs(f).Ok()
      invariant f.Clusters() == old(f.Clusters())
      invariant old(f.vol.exposed) ==> f.vol.exposed
      invariant f.vol.exposed ==> old(f.vol.exposed) || Exposed(states, ops[..|outs|], outs, heads)
      invariant old(NoStale(f.Heads()) && !f.vol.exposed) ==> NoStale(f.Heads()) && !f.vol.exposed
    {
      var i := |outs|;
      AffordsNext(states, ops, outs, f.Space(), space, cs);
      if NoStale(f.Heads()) {
        NotExposing(f.Heads());
      }
      var out;
      out, reading := Do(f, ops[i], reading);
      AbsOk(f);
      ExposedNext(states, ops, outs, heads, Abs(f), out, f.Heads());
      outs, states, heads := outs + [out], states + [Abs(f)], heads + [f.Heads()];
    }
    assert ops[..|outs|] == ops;
    CrashNow(f);
  }

  lemma ExposedNext(states: seq<Spec>, ops: seq<Op>, outs: seq<Out>, heads: seq<seq<byte>>, s': Spec, out: Out, h': seq<byte>)
    requires |heads| == |states| == |outs| + 1 <= |ops|
    ensures var i := |outs|;
            Exposed(states, ops[..i], outs, heads) || (Creates(states[i], ops[i], out) && Exposing(heads[i])) ==>
              Exposed(states + [s'], ops[..i + 1], outs + [out], heads + [h'])
  {
    hide Creates, Exposing;
    var i, outs' := |outs|, outs + [out];
    if Exposed(states, ops[..i], outs, heads) {
      var k {:trigger outs[k]} :| 0 <= k < i && Creates(states[k], ops[..i][k], outs[k]) && Exposing(heads[k]);
      assert outs'[k] == outs[k];
    } else if Creates(states[i], ops[i], out) && Exposing(heads[i]) {
      assert outs'[i] == out;
    }
  }

  lemma AffordsNext(states: seq<Spec>, ops: seq<Op>, outs: seq<Out>, room': int, room: int, cs: int)
    requires |states| == |outs| + 1 && |outs| < |ops| && IsRun(states, ops[..|outs|], outs) && states[|outs|].Ok()
    requires cs > 0 && room <= room' && HasRoom(states[0], ops, room, cs)
    ensures Affords(states[|outs|], ops[|outs|], room', cs)
  {
    hide Step, Spec.Ok, Need, IsRun;
    var i := |outs|;
    forall out, s' {:trigger Step(states[i], ops[i], out, s')} | Step(states[i], ops[i], out, s') && s'.Ok()
      ensures Need(s'.files, cs) <= room
    {
      RunMore(states, ops, outs, out, s');
    }
  }

  lemma RunMore(states: seq<Spec>, ops: seq<Op>, outs: seq<Out>, out: Out, s': Spec)
    requires |outs| < |ops| && IsRun(states, ops[..|outs|], outs) && states[|outs|].Ok()
    requires Step(states[|outs|], ops[|outs|], out, s') && s'.Ok()
    ensures IsRun(states + [s'], ops[..|outs + [out]|], outs + [out]) && |states| == |outs| + 1
  {
    hide Step, Spec.Ok;
    assert ops[..|outs|] + [ops[|outs|]] == ops[..|outs| + 1];
  }

  lemma NotExposing(heads: seq<byte>)
    requires NoStale(heads)
    ensures !Exposing(heads)
  {
  }

  lemma CrashNow(f: Fsrw)
    requires f.Inv()
    ensures Crash(f.vol.geo, f.vol.trail, f.vol.exposed)
    ensures f.vol.exposed <==> !AllSound(f.vol.geo, f.vol.trail, 0)
  {
    hide Volume.L, Shows, Consistent, AllSound, Sound, MetaOf;
  }
}
