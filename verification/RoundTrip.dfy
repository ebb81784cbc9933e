/** What the runs of the simple form amount to: what is written is what is read
    back, appending appends, and other files are left alone.  */
module RoundTrip {
  import opened Bytes
  import opened Arith
  import opened Content
  import opened Counting
  import opened Names
  import opened FileState
  import opened FileSystem
  import opened Session

  predicate WriteOp(op: Op) { op.Write? || op.Putc? || op.Flush? }

  predicate ReadOp(op: Op) { op.Read? || op.Getc? }

  function Piece(op: Op): seq<byte> {
    if op.Write? then op.data else if op.Putc? then [op.c] else []
  }

  function Wish(op: Op): nat {
    match op
    case Read(n) => if n > 0 then n else 0
    case Getc => 1
    case _ => 0
  }

  /** Everything that the operations from the i-th to before the j-th write.  */
  function Written(ops: seq<Op>, i: nat, j: nat): seq<byte>
    requires i <= j <= |ops|
    decreases j
  {
    if i == j then [] else Written(ops, i, j - 1) + Piece(ops[j - 1])
  }

  /** How many bytes they ask for.  */
  function Asked(ops: seq<Op>, i: nat, j: nat): nat
    requires i <= j <= |ops|
    decreases j
  {
    if i == j then 0 else Asked(ops, i, j - 1) + Wish(ops[j - 1])
  }

  /** Everything that is handed over.  */
  function Got(outs: seq<Out>, i: nat, j: nat): seq<byte>
    requires i <= j <= |outs|
    decreases j
  {
    if i == j then [] else Got(outs, i, j - 1) + (if outs[j - 1].Did? then outs[j - 1].data else [])
  }

  lemma RunStep(states: seq<Spec>, ops: seq<Op>, outs: seq<Out>, k: nat)
    requires IsRun(states, ops, outs) && k < |ops|
    ensures states[k].Ok() && Step(states[k], ops[k], outs[k], states[k + 1])
  {
    hide Step, Spec.Ok;
  }

  lemma AppendTwice(f: Files, n: seq<byte>, a: seq<byte>, b: seq<byte>)
    requires n in f
    ensures Append(Append(f, n, a), n, b) == Append(f, n, a + b) && Append(f, n, []) == f
  {
    assert f[n].data + a + b == f[n].data + (a + b);
    assert f[n].data + [] == f[n].data;
  }

  lemma WriteOne(s: Spec, op: Op, out: Out, s': Spec, n: seq<byte>)
    requires s.Ok() && Step(s, op, out, s') && s.open == Writer(n) && WriteOp(op)
    requires |s.files[n].data| + |Piece(op)| < 0x8000_0000
    ensures s' == Spec(Append(s.files, n, Piece(op)), Writer(n))
  {
    AppendTwice(s.files, n, [], []);
  }

  lemma {:induction false} WritesRun(states: seq<Spec>, ops: seq<Op>, outs: seq<Out>, n: seq<byte>, i: nat, j: nat)
    requires IsRun(states, ops, outs) && i <= j <= |ops| && states[i].Ok() && states[i].open == Writer(n)
    requires forall k :: i <= k < j ==> WriteOp(ops[k])
    requires |states[i].files[n].data| + |Written(ops, i, j)| < 0x8000_0000
    ensures states[j] == Spec(Append(states[i].files, n, Written(ops, i, j)), Writer(n))
    decreases j
  {
    if i == j {
      AppendTwice(states[i].files, n, [], []);
    } else {
      WritesRun(states, ops, outs, n, i, j - 1);
      RunStep(states, ops, outs, j - 1);
      AppendTwice(states[i].files, n, Written(ops, i, j - 1), Piece(ops[j - 1]));
      hide Step;
      WriteOne(states[j - 1], ops[j - 1], outs[j - 1], states[j], n);
    }
  }

  lemma ReadOne(s: Spec, op: Op, out: Out, s': Spec, n: seq<byte>, p: nat)
    requires s.Ok() && Step(s, op, out, s') && s.open == Reader(n, p) && ReadOp(op)
    ensures var q := Min(|s.files[n].data|, p + Wish(op));
            p <= q && s' == Spec(s.files, Reader(n, q)) && out.Did? && out.data == s.files[n].data[p..q]
  {
  }

  lemma ReadMore(text: seq<byte>, p: nat, a: nat, b: nat)
    requires p <= |text|
    ensures var q, q' := Min(|text|, p + a), Min(|text|, p + a + b);
            q' == Min(|text|, q + b) && text[p..q] + text[q..q'] == text[p..q']
  {
  }

  lemma ReaderInside(s: Spec, n: seq<byte>, p: nat)
    requires s.Ok() && s.open == Reader(n, p)
    ensures n in s.files && p <= |s.files[n].data|
  {
  }

  lemma {:induction false} ReadsRun(states: seq<Spec>, ops: seq<Op>, outs: seq<Out>, n: seq<byte>, p: nat, i: nat, j: nat)
    requires IsRun(states, ops, outs) && i <= j <= |ops| && states[i].open == Reader(n, p)
    requires forall k :: i <= k < j ==> ReadOp(ops[k])
    ensures var f := states[i].files;
            && n in f && p <= |f[n].data|
            && var q := Min(|f[n].data|, p + Asked(ops, i, j));
            p <= q && states[j] == Spec(f, Reader(n, q)) && Got(outs, i, j) == f[n].data[p..q]
    decreases j
  {
    hide Step, Spec.Ok;
    ReaderInside(states[i], n, p);
    if i < j {
      ReadsRun(states, ops, outs, n, p, i, j - 1);
      RunStep(states, ops, outs, j - 1);
      ReadOne(states[j - 1], ops[j - 1], outs[j - 1], states[j], n, states[j - 1].open.pos);
      ReadMore(states[i].files[n].data, p, Asked(ops, i, j - 1), Wish(ops[j - 1]));
    }
  }

  lemma OpenOne(s: Spec, name: seq<byte>, mode: byte, op: Op, out: Out, s': Spec)
    requires s.Ok() && Step(s, op, out, s') && Opens(op, name, mode)
    ensures out == Did(Result.Ok(0), []) ==> Padded(name)[0] != 0xe5
    ensures mode == MODE_R && Padded(name) in s.files && Padded(name)[0] != 0xe5 ==>
              out == Did(Result.Ok(0), []) && s' == Spec(s.files, Reader(Padded(name), 0))
  {
    hide Padded;
  }

  /** What is written to a new or an overwritten file, in any pieces, is what is
      read back, in any pieces, and no other file changes.  */
  lemma WriteThenRead(states: seq<Spec>, ops: seq<Op>, outs: seq<Out>, name: seq<byte>, i: nat, c: nat, j: nat)
    requires IsRun(states, ops, outs) && i < c && c + 2 <= j <= |ops|
    requires Opens(ops[i], name, MODE_W) && outs[i] == Did(Result.Ok(0), [])
    requires forall k :: i < k < c ==> WriteOp(ops[k])
    requires ops[c] == Close && Opens(ops[c + 1], name, MODE_R)
    requires forall k :: c + 1 < k < j ==> ReadOp(ops[k])
    requires |Written(ops, i + 1, c)| < 0x8000_0000
    ensures var w := Written(ops, i + 1, c);
            && states[j].files == states[i].files[Padded(name) := File(false, w)]
            && Got(outs, c + 2, j) == w[..Min(|w|, Asked(ops, c + 2, j))]
  {
    var n, w := Padded(name), Written(ops, i + 1, c);
    WriteFile(states, ops, outs, name, i, c);
    RunStep(states, ops, outs, i);
    RunStep(states, ops, outs, c + 1);
    hide Padded, Written, Asked, Got, Step, Spec.Ok;
    OpenOne(states[i], name, MODE_W, ops[i], outs[i], states[i + 1]);
    OpenOne(states[c + 1], name, MODE_R, ops[c + 1], outs[c + 1], states[c + 2]);
    ReadsRun(states, ops, outs, n, 0, c + 2, j);
  }

  /** Writing to a new or an overwritten file leaves in it what was written.  */
  lemma WriteFile(states: seq<Spec>, ops: seq<Op>, outs: seq<Out>, name: seq<byte>, i: nat, c: nat)
    requires IsRun(states, ops, outs) && i < c < |ops| && ops[c] == Close
    requires Opens(ops[i], name, MODE_W) && outs[i] == Did(Result.Ok(0), [])
    requires forall k :: i < k < c ==> WriteOp(ops[k])
    requires |Written(ops, i + 1, c)| < 0x8000_0000
    ensures states[c + 1] == Spec(states[i].files[Padded(name) := File(false, Written(ops, i + 1, c))], Idle)
  {
    var n, w := Padded(name), Written(ops, i + 1, c);
    RunStep(states, ops, outs, i);
    RunStep(states, ops, outs, c);
    hide Padded, Written;
    WritesRun(states, ops, outs, n, i + 1, c);
    assert [] + w == w;
    assert Append(states[i + 1].files, n, w) == states[i].files[n := File(false, w)];
  }

  /** Appending puts what is written behind what was there.  */
  lemma AppendThenClose(states: seq<Spec>, ops: seq<Op>, outs: seq<Out>, name: seq<byte>, i: nat, c: nat)
    requires IsRun(states, ops, outs) && i < c < |ops| && ops[c] == Close
    requires Opens(ops[i], name, MODE_A) && outs[i] == Did(Result.Ok(0), [])
    requires forall k :: i < k < c ==> WriteOp(ops[k])
    requires var was := if Padded(name) in states[i].files then states[i].files[Padded(name)].data else [];
             |was| + |Written(ops, i + 1, c)| < 0x8000_0000
    ensures var n, f, w := Padded(name), states[i].files, Written(ops, i + 1, c);
            states[c + 1] == Spec(f[n := if n in f then File(f[n].locked, f[n].data + w) else File(false, w)], Idle)
  {
    var n, f, w := Padded(name), states[i].files, Written(ops, i + 1, c);
    RunStep(states, ops, outs, i);
    RunStep(states, ops, outs, c);
    hide Padded;
    WritesRun(states, ops, outs, n, i + 1, c);
    assert [] + w == w;
    hide Written;
    assert Append(states[i + 1].files, n, w) == f[n := if n in f then File(f[n].locked, f[n].data + w) else File(false, w)];
  }

  /** A file that no operation of a run names stays as it is.  */
  lemma {:induction false} OthersKept(states: seq<Spec>, ops: seq<Op>, outs: seq<Out>, n: seq<byte>, i: nat, j: nat)
    requires IsRun(states, ops, outs) && i <= j <= |ops|
    requires states[i].open.Writer? ==> states[i].open.name != n
    requires forall k :: i <= k < j && ops[k].Open? ==> Padded(ops[k].name) != n
    ensures var s, s' := states[i], states[j];
            && (n in s'.files <==> n in s.files) && (n in s.files ==> s'.files[n] == s.files[n])
            && (s'.open.Writer? ==> s'.open.name != n)
    decreases j
  {
    hide Padded;
    if i < j {
      OthersKept(states, ops, outs, n, i, j - 1);
      RunStep(states, ops, outs, j - 1);
    }
  }

  // -------------------------------------------------------------------- room

  /** One file written over and over again.  */
  predicate Rewrites(ops: seq<Op>, name: seq<byte>, data: seq<byte>) {
    forall i {:trigger ops[i]} :: 0 <= i < |ops| ==> RewriteOp(ops[i], name, data, i)
  }

  predicate RewriteOp(op: Op, name: seq<byte>, data: seq<byte>, i: int) {
    if i % 3 == 0 then Opens(op, name, MODE_W) else op == if i % 3 == 1 then Write(data) else Close
  }

  /** What such a run has made of the files of `f`.  */
  ghost predicate Rewritten(f: Files, s: Spec, n: seq<byte>, data: seq<byte>, i: nat) {
    && s.files - {n} == f - {n}
    && (n in s.files ==> (n in f && s.files[n] == f[n]) || s.files[n].data == [] || s.files[n].data == data)
    && (s.open == Idle || (s.open == Writer(n) && n in s.files && i % 3 != 0 && (i % 3 == 1 ==> s.files[n].data == [])))
  }

  lemma RewriteOne(f: Files, s: Spec, name: seq<byte>, data: seq<byte>, i: nat, op: Op, out: Out, s': Spec)
    requires s.Ok() && Rewritten(f, s, Padded(name), data, i) && Step(s, op, out, s')
    requires RewriteOp(op, name, data, i)
    ensures Rewritten(f, s', Padded(name), data, i + 1)
  {
    hide Padded;
    assert [] + data == data;
    var n := Padded(name);
    assert s'.files - {n} == s.files - {n};
  }

  lemma {:induction false} RewriteRun(states: seq<Spec>, ops: seq<Op>, outs: seq<Out>, name: seq<byte>, data: seq<byte>, i: nat)
    requires IsRun(states, ops, outs) && i <= |ops| && Rewrites(ops, name, data) && states[0].open == Idle
    ensures Rewritten(states[0].files, states[i], Padded(name), data, i)
  {
    hide Padded, Step, Spec.Ok;
    if i > 0 {
      RewriteRun(states, ops, outs, name, data, i - 1);
      RunStep(states, ops, outs, i - 1);
      hide Rewritten;
      RewriteOne(states[0].files, states[i - 1], name, data, i - 1, ops[i - 1], outs[i - 1], states[i]);
    }
  }

  /** A file can be written over any number of times if it can be once: what it had is
      given back each time.  */
  lemma RewritesHaveRoom(s: Spec, ops: seq<Op>, name: seq<byte>, data: seq<byte>, room: int, cs: int)
    requires Rewrites(ops, name, data) && s.open == Idle && cs > 0 && Need(s.files, cs) <= room
    requires Need(s.files - {Padded(name)}, cs) + Units(|data|, cs) <= room
    ensures HasRoom(s, ops, room, cs)
  {
    hide Need, Padded, Units;
    var n := Padded(name);
    forall states: seq<Spec>, outs: seq<Out> {:trigger IsRun(states, ops[..|outs|], outs)}
      | 0 < |outs| <= |ops| && IsRun(states, ops[..|outs|], outs) && states[0] == s
      ensures Need(states[|outs|].files, cs) <= room
    {
      var files := states[|outs|].files;
      RewriteRun(states, ops[..|outs|], outs, name, data, |outs|);
      UnitsIs(0, 0, cs);
      if n in files {
        NeedWithout(files, n, cs);
        if n in s.files {
          NeedWithout(s.files, n, cs);
        }
      } else {
        assert files - {n} == files;
      }
    }
  }
}
