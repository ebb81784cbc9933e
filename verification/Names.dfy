/** The 8.3 names: what popen makes of a file name, what nextfile prints, and when
    one undoes the other.  */
module Names {
  import opened Bytes
  import opened Arith

  const DOT: byte := 46
  const SPACE: byte := 32

  /** A character of a zero-terminated string.  */
  function Char(s: seq<byte>, i: int): byte {
    if 0 <= i < |s| then s[i] else 0
  }

  function Uc(c: byte): byte {
    if 97 <= c <= 122 then c - 32 else c
  }

  predicate Stops(c: byte) { c == 0 || c == DOT }

  /** The first place from `i` on that ends a base name.  */
  function BaseEnd(s: seq<byte>, i: nat): (e: nat)
    requires i <= |s|
    ensures i <= e <= |s| && Stops(Char(s, e))
    ensures forall k :: i <= k < e ==> !Stops(s[k])
    decreases |s| - i
  {
    if Stops(Char(s, i)) then i else BaseEnd(s, i + 1)
  }

  /** The first place from `i` on that ends the string.  */
  function StringEnd(s: seq<byte>, i: nat): (e: nat)
    requires i <= |s|
    ensures i <= e <= |s| && Char(s, e) == 0
    ensures forall k :: i <= k < e ==> s[k] != 0
    decreases |s| - i
  {
    if Char(s, i) == 0 then i else StringEnd(s, i + 1)
  }

  /** The first n characters in upper case, filled up with spaces.  */
  function Field(x: seq<byte>, n: nat): (r: seq<byte>)
    ensures |r| == n
  {
    seq(n, k requires 0 <= k => if k < |x| then Uc(x[k]) else SPACE)
  }

  function ExtStart(s: seq<byte>): (e: nat)
    ensures e <= |s|
  {
    var d := BaseEnd(s, 0);
    if Char(s, d) == DOT then d + 1 else d
  }

  /** The eleven characters that popen searches for.  */
  function Padded(s: seq<byte>): (n: seq<byte>)
    ensures |n| == 11
  {
    var e := ExtStart(s);
    Field(s[..BaseEnd(s, 0)], 8) + Field(s[e..StringEnd(s, e)], 3)
  }

  lemma {:induction false} BaseEndAt(s: seq<byte>, i: nat, e: nat)
    requires i <= e <= |s| && Stops(Char(s, e)) && forall k :: i <= k < e ==> !Stops(s[k])
    ensures BaseEnd(s, i) == e
    decreases e - i
  {
    if i < e {
      assert !Stops(s[i]);
      BaseEndAt(s, i + 1, e);
    }
  }

  lemma {:induction false} StringEndAt(s: seq<byte>, i: nat, e: nat)
    requires i <= e <= |s| && Char(s, e) == 0 && forall k :: i <= k < e ==> s[k] != 0
    ensures StringEnd(s, i) == e
    decreases e - i
  {
    if i < e {
      StringEndAt(s, i + 1, e);
    }
  }

  /** Where a field that starts at `p` ends: the base name at a dot too.  */
  function FieldEnd(s: seq<byte>, p: nat, base: bool): (e: nat)
    requires p <= |s|
    ensures p <= e <= |s|
  {
    if base then BaseEnd(s, p) else StringEnd(s, p)
  }

  /** The two loops that copy and pad one field of the name buffer.  */
  method TakeField(s: seq<byte>, p0: nat, padname: array<byte>, lo: nat, hi: nat, base: bool) returns (p: nat)
    requires p0 <= |s| && lo <= hi <= padname.Length
    modifies padname
    ensures padname[..lo] == old(padname[..lo]) && padname[hi..] == old(padname[hi..])
    ensures padname[lo..hi] == Field(s[p0..FieldEnd(s, p0, base)], hi - lo)
    ensures p == Min(FieldEnd(s, p0, base), p0 + (hi - lo))
  {
    var i := lo;
    p := p0;
    ghost var e := FieldEnd(s, p0, base);
    ghost var field := Field(s[p0..e], hi - lo);
    while i < hi && Char(s, p) != 0 && !(base && Char(s, p) == DOT)
      invariant lo <= i <= hi && i - lo == p - p0 && p <= e && FieldEnd(s, p, base) == e
      invariant padname[..lo] == old(padname[..lo]) && padname[hi..] == old(padname[hi..])
      invariant padname[lo..i] == field[..i - lo]
    {
      padname[i] := Uc(Char(s, p));
      assert field[i - lo] == Uc(s[p0..e][p - p0]);
      i := i + 1;
      p := p + 1;
    }
    while i < hi
      invariant p - p0 <= i - lo <= hi - lo && p == Min(e, p0 + (hi - lo))
      invariant padname[..lo] == old(padname[..lo]) && padname[hi..] == old(padname[hi..])
      invariant padname[lo..i] == field[..i - lo]
    {
      padname[i] := SPACE;
      i := i + 1;
    }
  }

  /** popen's parsing of a file name into the name buffer.  */
  method ParseName(s: seq<byte>, padname: array<byte>)
    requires padname.Length == 11
    modifies padname
    ensures padname[..] == Padded(s)
  {
    var p := TakeField(s, 0, padname, 0, 8, true);
    ghost var d := BaseEnd(s, 0);
    while Char(s, p) != 0 && Char(s, p) != DOT
      invariant p <= d
      decreases d - p
    {
      p := p + 1;
    }
    assert p == d;
    if Char(s, p) == DOT {
      p := p + 1;
    }
    ghost var base := padname[..8];
    p := TakeField(s, p, padname, 8, 11, false);
    assert base == Field(s[..d], 8);
    assert padname[..] == base + padname[8..11];
  }

  // --------------------------------------------------------------- printing

  /** `x` without its trailing spaces.  */
  function Trimmed(x: seq<byte>): (r: seq<byte>)
    ensures r <= x && forall k :: |r| <= k < |x| ==> x[k] == SPACE
    ensures r != [] ==> r[|r| - 1] != SPACE
  {
    if x != [] && x[|x| - 1] == SPACE then Trimmed(x[..|x| - 1]) else x
  }

  /** What nextfile writes for an eleven-character name, before the final 0: no dot
      where there is no extension.  */
  function Printed(n: seq<byte>): (r: seq<byte>)
    requires |n| == 11
    ensures |r| <= 12
  {
    if Trimmed(n[8..]) == [] then Trimmed(n[..8]) else Trimmed(n[..8]) + [DOT] + Trimmed(n[8..])
  }

  lemma TrimmedStep(n: seq<byte>, lo: nat, i: nat)
    requires lo <= i < |n|
    ensures n[lo..i + 1] == n[lo..i] + [n[i]]
    ensures Trimmed(n[lo..i + 1]) == if n[i] == SPACE then Trimmed(n[lo..i]) else n[lo..i + 1]
  {
    var x := n[lo..i + 1];
    assert x[..|x| - 1] == n[lo..i];
  }

  /** What is written after i characters, and how much of it stays if only spaces
      follow.  */
  function Written(n: seq<byte>, i: nat): (w: seq<byte>)
    requires |n| == 11 && i <= 11
    ensures |w| <= i + 1 && (i == 0 ==> w == [])
  {
    if i < 8 then n[0..i] else Trimmed(n[..8]) + [DOT] + n[8..i]
  }

  function Kept(n: seq<byte>, i: nat): (k: nat)
    requires |n| == 11 && i <= 11
    ensures k <= |Written(n, i)| && (i == 0 ==> k == 0)
  {
    if i < 8 then |Trimmed(n[0..i])|
    else |Trimmed(n[..8])| + if Trimmed(n[8..i]) == [] then 0 else 1 + |Trimmed(n[8..i])|
  }

  lemma WrittenStep(n: seq<byte>, i: nat)
    requires |n| == 11 && i < 11
    ensures var w := Written(n, i) + [n[i]];
            var k := if n[i] == SPACE then Kept(n, i) else |w|;
            if i == 7 then k == Kept(n, 8) && w[..k] + [DOT] == Written(n, 8)
            else if i == 10 then w[..k] == Printed(n)
            else w == Written(n, i + 1) && k == Kept(n, i + 1)
  {
    TrimmedStep(n, if i < 8 then 0 else 8, i);
    if i < 8 {
      PrefixOf(n[0..i + 1]);
      assert n[0..8] == n[..8] && n[8..8] == [];
      hide Trimmed;
    } else {
      WrittenExt(n, i);
    }
  }

  lemma PrefixOf(t: seq<byte>)
    ensures Trimmed(t) == t[..|Trimmed(t)|] && Trimmed([]) == []
  {
  }

  lemma WrittenExt(n: seq<byte>, i: nat)
    requires |n| == 11 && 8 <= i < 11
    ensures var w := Written(n, i) + [n[i]];
            var k := if n[i] == SPACE then Kept(n, i) else |w|;
            if i == 10 then w[..k] == Printed(n) else w == Written(n, i + 1) && k == Kept(n, i + 1)
  {
    TrimmedStep(n, 8, i);
    PrefixOf(n[8..i]);
    PrefixOf(n[8..i + 1]);
    assert i == 10 ==> n[8..i + 1] == n[8..];
    hide Trimmed;
    ExtParts(Trimmed(n[..8]), n[8..i], n[i], Trimmed(n[8..i]), Trimmed(n[8..i + 1]));
  }

  /** The same on the parts: base name, extension so far, next character.  */
  lemma ExtParts(x: seq<byte>, y: seq<byte>, c: byte, t: seq<byte>, t': seq<byte>)
    requires t <= y && t' == if c == SPACE then t else y + [c]
    ensures var w := x + [DOT] + y + [c];
            var k := if c == SPACE then |x| + (if t == [] then 0 else 1 + |t|) else |w|;
            && w == x + [DOT] + (y + [c]) && k <= |w|
            && k == |x| + (if t' == [] then 0 else 1 + |t'|)
            && w[..k] == if t' == [] then x else x + [DOT] + t'
  {
    var w := x + [DOT] + y + [c];
    assert w == x + ([DOT] + y + [c]);
    if c == SPACE {
      assert t == y[..|t|];
      assert t != [] ==> w[..|x| + 1 + |t|] == x + [DOT] + t;
    }
  }

  /** `b` holds `w` at place `at`.  */
  predicate HoldsText(b: seq<byte>, at: nat, w: seq<byte>) {
    at + |w| <= |b| && b[at..at + |w|] == w
  }

  lemma TextPut(b: seq<byte>, at: nat, w: seq<byte>, c: byte, b': seq<byte>)
    requires HoldsText(b, at, w) && at + |w| < |b| && b' == b[at + |w| := c]
    ensures HoldsText(b', at, w + [c])
  {
  }

  lemma TextEmpty(b: seq<byte>, at: nat)
    requires at <= |b|
    ensures HoldsText(b, at, [])
  {
  }

  lemma TextCut(b: seq<byte>, at: nat, w: seq<byte>, k: nat)
    requires HoldsText(b, at, w) && k <= |w|
    ensures HoldsText(b, at, w[..k])
  {
    assert b[at..at + |w|][..k] == b[at..at + k];
  }

  /** One round of the loop below: `w` is what is written so far.  */
  method PrintChar(c: byte, i: nat, fbuf: array<byte>, at: nat, p0: nat, lns0: nat, ghost w: seq<byte>) returns (p: nat, lns: nat)
    requires p0 == at + |w| < at + 12 && at + 13 <= fbuf.Length && HoldsText(fbuf[..], at, w) && at <= lns0 <= p0
    modifies fbuf
    ensures forall k :: 0 <= k < fbuf.Length && !(at <= k < at + 13) ==> fbuf[k] == old(fbuf[k])
    ensures lns == if c != SPACE then p0 + 1 else lns0
    ensures i != 7 && i != 10 ==> p == p0 + 1 && HoldsText(fbuf[..], at, w + [c])
    ensures i == 10 ==> p == lns && HoldsText(fbuf[..], at, (w + [c])[..lns - at])
    ensures i == 7 ==> p == lns + 1 && HoldsText(fbuf[..], at, (w + [c])[..lns - at] + [DOT])
  {
    hide HoldsText;
    p, lns := p0, lns0;
    fbuf[p] := c;
    TextPut(old(fbuf[..]), at, w, c, fbuf[..]);
    p := p + 1;
    if c != SPACE {
      lns := p;
    }
    if i == 7 || i == 10 {
      TextCut(fbuf[..], at, w + [c], lns - at);
      p := lns;
      if i == 7 {
        ghost var b := fbuf[..];
        fbuf[p] := DOT;
        TextPut(b, at, (w + [c])[..lns - at], DOT, fbuf[..]);
        p := p + 1;
      }
    }
  }

  /** The loop of nextfile that prints the name `n` at place `at` of `fbuf`, which
      has to hold 13 characters from there.  */
  method PrintName(n: seq<byte>, fbuf: array<byte>, at: nat)
    requires |n| == 11 && at + 13 <= fbuf.Length
    modifies fbuf
    ensures HoldsText(fbuf[..], at, Printed(n) + [0])
    ensures forall k :: 0 <= k < fbuf.Length && !(at <= k < at + 13) ==> fbuf[k] == old(fbuf[k])
  {
    hide Written, Kept, Printed, Trimmed, HoldsText;
    var p, lns, i := at, at, 0;
    TextEmpty(fbuf[..], at);
    while i <= 10
      invariant 0 <= i <= 11
      invariant forall k :: 0 <= k < fbuf.Length && !(at <= k < at + 13) ==> fbuf[k] == old(fbuf[k])
      invariant if i < 11 then p == at + |Written(n, i)| && HoldsText(fbuf[..], at, Written(n, i)) && lns == at + Kept(n, i)
                else p == at + |Printed(n)| && HoldsText(fbuf[..], at, Printed(n))
    {
      WrittenStep(n, i);
      p, lns := PrintChar(n[i], i, fbuf, at, p, lns, Written(n, i));
      i := i + 1;
    }
    ghost var b := fbuf[..];
    fbuf[p] := 0;
    TextPut(b, at, Printed(n), 0, fbuf[..]);
  }

  predicate Plain(c: byte) { c != 0 && !(97 <= c <= 122) }

  /** The names that popen can look for: no NUL, no lower case letter, and no dot
      among the first eight characters.  */
  predicate Typable(n: seq<byte>)
    requires |n| == 11
  {
    && (forall k :: 0 <= k < 11 ==> Plain(n[k]))
    && (forall k :: 0 <= k < 8 ==> n[k] != DOT)
  }

  lemma PaddedTypable(s: seq<byte>)
    ensures Typable(Padded(s))
  {
    var e := ExtStart(s);
    var x, y := s[..BaseEnd(s, 0)], s[e..StringEnd(s, e)];
    forall k | 0 <= k < 8
      ensures Plain(Field(x, 8)[k]) && Field(x, 8)[k] != DOT
    {
      if k < |x| {
        assert !Stops(s[k]);
      }
    }
    forall k | 0 <= k < 3
      ensures Plain(Field(y, 3)[k])
    {
      if k < |y| {
        assert s[e + k] != 0;
      }
    }
    assert forall k :: 0 <= k < 11 ==> Padded(s)[k] == if k < 8 then Field(x, 8)[k] else Field(y, 3)[k - 8];
  }

  lemma FieldTrimmed(x: seq<byte>, n: nat)
    requires |x| == n && forall k :: 0 <= k < n ==> Plain(x[k])
    ensures Field(Trimmed(x), n) == x
  {
  }

  /** The fields that parsing finds in a printed name are those that printing put
      there.  */
  lemma PrintedParts(n: seq<byte>)
    requires |n| == 11 && Typable(n)
    ensures var s := Printed(n);
            var e := ExtStart(s);
            s[..BaseEnd(s, 0)] == Trimmed(n[..8]) && s[e..StringEnd(s, e)] == Trimmed(n[8..])
  {
    var s, b, x := Printed(n), Trimmed(n[..8]), Trimmed(n[8..]);
    forall k | 0 <= k < |b|
      ensures !Stops(s[k])
    {
      assert s[k] == b[k] == n[..8][k] == n[k];
    }
    BaseEndAt(s, 0, |b|);
    var e := if x == [] then |b| else |b| + 1;
    forall k | e <= k < |s|
      ensures s[k] != 0
    {
      assert s[k] == x[k - e] == n[8..][k - e] == n[8 + (k - e)];
    }
    StringEndAt(s, e, |s|);
  }

  /** Opening the printed form of a name looks for that very name exactly if the
      name is one that can be typed.  */
  lemma PrintParse(n: seq<byte>)
    requires |n| == 11
    ensures Padded(Printed(n)) == n <==> Typable(n)
  {
    if Typable(n) {
      PrintedParts(n);
      FieldTrimmed(n[..8], 8);
      FieldTrimmed(n[8..], 3);
      assert n == n[..8] + n[8..];
    } else {
      PaddedTypable(Printed(n));
    }
  }
}
