/** The packets of the debugger: how they are laid out in bytes, that a stream of
    them splits in one way only, and their form as text.  */
module DbgPacket {
  import opened Bytes

  datatype Packet =
    | Echo(data: seq<byte>)
    | CpuMemRd(addr: int, numBytes: int)
    | CpuMemWr(addr: int, data: seq<byte>)
    | DbgHlt
    | DbgRun
    | CpuRegRd(reg: byte)
    | CpuRegWr(reg: byte, val: byte)
    | QueryHlt
    | PpuMemRd(addr: int, numBytes: int)
    | PpuMemWr(addr: int, data: seq<byte>)
    | PpuDisable
    | CartSetCfg(header: seq<byte>)
  {
    /** Addresses and counts are 16 bits wide.  */
    predicate Valid() {
      match this
      case Echo(data) => |data| < 0x1_0000
      case CpuMemRd(addr, n) => 0 <= addr < 0x1_0000 && 0 <= n < 0x1_0000
      case CpuMemWr(addr, data) => 0 <= addr < 0x1_0000 && |data| < 0x1_0000
      case PpuMemRd(addr, n) => 0 <= addr < 0x1_0000 && 0 <= n < 0x1_0000
      case PpuMemWr(addr, data) => 0 <= addr < 0x1_0000 && |data| < 0x1_0000
      case CartSetCfg(header) => |header| == 5
      case _ => true
    }
  }

  function Word(v: int): (w: seq<byte>)
    ensures |w| == 2
  {
    [v % 0x100, v / 0x100 % 0x100]
  }

  /** The bytes of a packet.  */
  function Encode(p: Packet): (b: seq<byte>)
    ensures b != []
  {
    match p
    case Echo(data) => [0x00] + Word(|data|) + data
    case CpuMemRd(addr, n) => [0x01] + Word(addr) + Word(n)
    case CpuMemWr(addr, data) => [0x02] + Word(addr) + Word(|data|) + data
    case DbgHlt => [0x03]
    case DbgRun => [0x04]
    case CpuRegRd(reg) => [0x05, reg]
    case CpuRegWr(reg, val) => [0x06, reg, val]
    case QueryHlt => [0x07]
    case PpuMemRd(addr, n) => [0x09] + Word(addr) + Word(n)
    case PpuMemWr(addr, data) => [0x0a] + Word(addr) + Word(|data|) + data
    case PpuDisable => [0x0b]
    case CartSetCfg(header) => [0x0c] + header
  }

  /** SizeInBytes, computed from the bytes of a packet.  */
  function SizeInBytes(b: seq<byte>): int {
    if b == [] then 0
    else if b[0] == 0x00 then if |b| >= 3 then 3 + Le16(b, 1) else 0
    else if b[0] == 0x01 || b[0] == 0x09 then 5
    else if b[0] == 0x02 || b[0] == 0x0a then if |b| >= 5 then 5 + Le16(b, 3) else 0
    else if b[0] == 0x05 then 2
    else if b[0] == 0x06 then 3
    else if b[0] == 0x0c then 6
    else if b[0] == 0x08 || b[0] > 0x0c then 0
    else 1
  }

  datatype Option<T> = None | Some(value: T)

  /** The packet at the start of a stream, as a receiver reads it off.  */
  function First(s: seq<byte>): Option<Packet> {
    var n := SizeInBytes(s);
    if n == 0 || n > |s| then None
    else
      match s[0]
      case 0x00 => Some(Echo(s[3..n]))
      case 0x01 => Some(CpuMemRd(Le16(s, 1), Le16(s, 3)))
      case 0x02 => Some(CpuMemWr(Le16(s, 1), s[5..n]))
      case 0x03 => Some(DbgHlt)
      case 0x04 => Some(DbgRun)
      case 0x05 => Some(CpuRegRd(s[1]))
      case 0x06 => Some(CpuRegWr(s[1], s[2]))
      case 0x07 => Some(QueryHlt)
      case 0x09 => Some(PpuMemRd(Le16(s, 1), Le16(s, 3)))
      case 0x0a => Some(PpuMemWr(Le16(s, 1), s[5..n]))
      case 0x0b => Some(PpuDisable)
      case 0x0c => Some(CartSetCfg(s[1..6]))
      case _ => None
  }

  lemma WordAt(s: seq<byte>, o: int, v: int)
    requires 0 <= o && o + 2 <= |s| && 0 <= v < 0x1_0000 && s[o] == Word(v)[0] && s[o + 1] == Word(v)[1]
    ensures Le16(s, o) == v
  {
  }

  /** Whatever follows it, a packet is read off a stream as it was, and SizeInBytes
      is its length.  */
  lemma FirstIs(p: Packet, rest: seq<byte>)
    requires p.Valid()
    ensures var s := Encode(p) + rest;
            SizeInBytes(s) == |Encode(p)| == SizeInBytes(Encode(p)) && First(s) == Some(p)
  {
    var b := Encode(p);
    var s := b + rest;
    forall t | t == b || t == s
      ensures SizeInBytes(t) == |b|
      ensures First(t) == Some(p)
    {
      Fields(p, t);
    }
  }

  lemma Fields(p: Packet, t: seq<byte>)
    requires p.Valid() && Encode(p) <= t
    ensures SizeInBytes(t) == |Encode(p)| && First(t) == Some(p)
  {
    var b := Encode(p);
    assert forall i :: 0 <= i < |b| ==> t[i] == b[i];
    match p
    case Echo(data) =>
      assert b[1] == Word(|data|)[0] && b[2] == Word(|data|)[1];
      WordAt(t, 1, |data|);
      assert t[3..|b|] == b[3..] == data;
    case CpuMemRd(addr, n) => Head(p, t, addr, n);
    case PpuMemRd(addr, n) => Head(p, t, addr, n);
    case CpuMemWr(addr, data) =>
      Head(p, t, addr, |data|);
      assert t[5..|b|] == b[5..] == data;
    case PpuMemWr(addr, data) =>
      Head(p, t, addr, |data|);
      assert t[5..|b|] == b[5..] == data;
    case CartSetCfg(header) => assert t[1..6] == b[1..] == header;
    case _ =>
  }

  /** The address and the count of a packet that has both.  */
  lemma Head(p: Packet, t: seq<byte>, addr: int, n: int)
    requires p.Valid() && Encode(p) <= t
    requires || ((p.CpuMemRd? || p.PpuMemRd?) && p.addr == addr && p.numBytes == n)
             || ((p.CpuMemWr? || p.PpuMemWr?) && p.addr == addr && |p.data| == n)
    ensures |t| >= 5 && Le16(t, 1) == addr && Le16(t, 3) == n
  {
    var b := Encode(p);
    assert b[1] == Word(addr)[0] && b[2] == Word(addr)[1] && b[3] == Word(n)[0] && b[4] == Word(n)[1];
    assert forall i :: 0 <= i < |b| ==> t[i] == b[i];
    WordAt(t, 1, addr);
    WordAt(t, 3, n);
  }

  /** No packet starts another.  */
  lemma PrefixFree(p: Packet, q: Packet)
    requires p.Valid() && q.Valid() && Encode(p) <= Encode(q)
    ensures p == q
  {
    Fields(p, Encode(q));
    Fields(q, Encode(q));
  }

  predicate AllValid(ps: seq<Packet>) {
    forall i :: 0 <= i < |ps| ==> ps[i].Valid()
  }

  function EncodeAll(ps: seq<Packet>): seq<byte> {
    if ps == [] then [] else Encode(ps[0]) + EncodeAll(ps[1..])
  }

  /** The packets of a stream; None if it does not end with a packet.  */
  function Split(s: seq<byte>): Option<seq<Packet>>
    decreases |s|
  {
    if s == [] then Some([])
    else
      var n := SizeInBytes(s);
      var p := First(s);
      if p.None? || n <= 0 then None
      else
        var ps := Split(s[n..]);
        if ps.None? then None else Some([p.value] + ps.value)
  }

  /** The stream determines the packets.  */
  lemma {:induction false} SplitIs(ps: seq<Packet>)
    requires AllValid(ps)
    ensures Split(EncodeAll(ps)) == Some(ps)
    decreases |ps|
  {
    if ps != [] {
      var b, rest := Encode(ps[0]), EncodeAll(ps[1..]);
      FirstIs(ps[0], rest);
      assert (b + rest)[|b|..] == rest;
      SplitIs(ps[1..]);
      hide Encode, SizeInBytes, First;
      assert [ps[0]] + ps[1..] == ps;
    }
  }

  lemma {:induction false} EncodeMore(ps: seq<Packet>, p: Packet)
    ensures EncodeAll(ps + [p]) == EncodeAll(ps) + Encode(p)
    decreases |ps|
  {
    hide Encode;
    if ps == [] {
      assert ps + [p] == [p] && [p][1..] == [];
    } else {
      EncodeMore(ps[1..], p);
      assert (ps + [p])[1..] == ps[1..] + [p];
    }
  }

  // ---------------------------------------------------------- constructors

  /** A 16-bit store into the packet.  */
  method StoreWord(data: array<byte>, at: nat, v: int)
    requires at + 2 <= data.Length
    modifies data
    ensures data[at] == Word(v)[0] && data[at + 1] == Word(v)[1]
    ensures forall k :: 0 <= k < data.Length && k != at && k != at + 1 ==> data[k] == old(data[k])
  {
    data[at] := v % 0x100;
    data[at + 1] := v / 0x100 % 0x100;
  }

  /** The loop of the constructors that take data.  */
  method StoreBytes(data: array<byte>, at: nat, bytes: seq<byte>)
    requires at + |bytes| == data.Length
    modifies data
    ensures data[at..] == bytes && data[..at] == old(data[..at])
  {
    var i := 0;
    while i < |bytes|
      invariant 0 <= i <= |bytes|
      invariant forall k :: 0 <= k < i ==> data[at + k] == bytes[k]
      invariant forall k :: 0 <= k < at ==> data[k] == old(data[k])
    {
      data[at + i] := bytes[i];
      i := i + 1;
    }
  }

  method NewEcho(echoData: seq<byte>) returns (data: array<byte>)
    requires |echoData| < 0x1_0000
    ensures fresh(data) && data[..] == Encode(Echo(echoData))
  {
    data := new byte[3 + |echoData|];
    data[0] := 0x00;
    StoreBytes(data, 3, echoData);
    ghost var was := data[..];
    assert data[0] == data[..3][0] == 0x00;
    StoreWord(data, 1, |echoData|);
    assert data[..3] == [0x00] + Word(|echoData|);
    assert data[3..] == was[3..] == echoData;
    assert data[..] == data[..3] + data[3..];
  }

  /** The constructors of the packets that write memory.  */
  method NewMemWr(ppu: bool, addr: int, bytes: seq<byte>) returns (data: array<byte>)
    requires 0 <= addr < 0x1_0000 && |bytes| < 0x1_0000
    ensures fresh(data) && data[..] == Encode(if ppu then PpuMemWr(addr, bytes) else CpuMemWr(addr, bytes))
  {
    data := new byte[5 + |bytes|];
    data[0] := if ppu then 0x0a else 0x02;
    StoreWord(data, 1, addr);
    StoreWord(data, 3, |bytes|);
    assert data[..5] == [data[0]] + Word(addr) + Word(|bytes|);
    StoreBytes(data, 5, bytes);
    assert data[..] == data[..5] + data[5..];
  }

  // ------------------------------------------------------------------ text

  function HexDigit(v: int): char
    requires 0 <= v < 16
  {
    if v > 9 then 'A' + (v - 10) as char else '0' + v as char
  }

  /** What the debugger prints for the bytes it receives.  */
  function Hex(b: seq<byte>): seq<char> {
    if b == [] then [] else Hex(b[..|b| - 1]) + [HexDigit(b[|b| - 1] / 16), HexDigit(b[|b| - 1] % 16), ' ']
  }

  /** Characters are wide; the code looks at the low byte of each.  */
  function Low(c: char): int { c as int % 0x100 }

  predicate IsSpace(c: char) { Low(c) == ' ' as int }

  function Nibble(c: char): Option<int> {
    var input := Low(c);
    if '0' as int <= input <= '9' as int then Some(input - '0' as int)
    else if 'a' as int <= input <= 'f' as int then Some(input - 'a' as int + 10)
    else if 'A' as int <= input <= 'F' as int then Some(input - 'A' as int + 10)
    else None
  }

  /** The nibbles of a text; None if it holds anything but digits and spaces.  */
  function Nibbles(text: seq<char>): Option<seq<int>> {
    if text == [] then Some([])
    else
      var ns, c := Nibbles(text[..|text| - 1]), text[|text| - 1];
      if ns.None? then None
      else if IsSpace(c) then ns
      else if Nibble(c).None? then None
      else Some(ns.value + [Nibble(c).value])
  }

  function Digits(b: seq<byte>): (ns: seq<int>)
    ensures |ns| == 2 * |b|
  {
    seq(2 * |b|, i requires 0 <= i < 2 * |b| => if i % 2 == 0 then b[i / 2] / 16 else b[i / 2] % 16)
  }

  lemma NibbleOf(v: int)
    requires 0 <= v < 16
    ensures Nibble(HexDigit(v)) == Some(v) && !IsSpace(HexDigit(v)) && IsSpace(' ')
  {
  }

  /** Reading a printed text gives the digits of the bytes.  */
  lemma {:induction false} HexRead(b: seq<byte>)
    ensures Nibbles(Hex(b)) == Some(Digits(b))
  {
    if b == [] {
      assert Digits(b) == [];
    } else {
      var was, x := b[..|b| - 1], b[|b| - 1];
      HexRead(was);
      NibbleOf(x / 16);
      NibbleOf(x % 16);
      var t := Hex(was);
      assert Hex(b) == t + [HexDigit(x / 16)] + [HexDigit(x % 16)] + [' '];
      hide Hex, HexDigit, Nibbles, Nibble;
      NibblesMore(t, HexDigit(x / 16));
      NibblesMore(t + [HexDigit(x / 16)], HexDigit(x % 16));
      NibblesMore(t + [HexDigit(x / 16)] + [HexDigit(x % 16)], ' ');
      DigitsMore(b);
    }
  }

  lemma DigitsMore(b: seq<byte>)
    requires b != []
    ensures var x := b[|b| - 1];
            Digits(b) == Digits(b[..|b| - 1]) + [x / 16] + [x % 16]
  {
  }

  lemma NibblesMore(t: seq<char>, c: char)
    ensures Nibbles(t + [c]) ==
            if Nibbles(t).None? then None
            else if IsSpace(c) then Nibbles(t)
            else if Nibble(c).None? then None
            else Some(Nibbles(t).value + [Nibble(c).value])
  {
    assert (t + [c])[..|t|] == t;
  }

  /** The printing loop: a pointer moves through the output.  */
  method PrintHex(b: seq<byte>) returns (out: array<char>)
    ensures fresh(out) && out.Length == 3 * |b| + 1 && out[..3 * |b|] == Hex(b) && out[3 * |b|] == '\0'
  {
    out := new char[3 * |b| + 1];
    var p, i := 0, 0;
    while i < |b|
      invariant 0 <= i <= |b| && p == 3 * i && out[..p] == Hex(b[..i])
    {
      ghost var was := out[..p];
      out[p] := HexDigit(b[i] / 16);
      out[p + 1] := HexDigit(b[i] % 16);
      out[p + 2] := ' ';
      assert b[..i + 1][..i] == b[..i];
      assert out[..p + 3] == was + [HexDigit(b[i] / 16), HexDigit(b[i] % 16), ' '];
      p := p + 3;
      i := i + 1;
    }
    out[p] := '\0';
    assert b[..|b|] == b;
  }

  function Packed(ns: seq<int>): seq<byte>
    requires |ns| % 2 == 0 && forall i :: 0 <= i < |ns| ==> 0 <= ns[i] < 16
  {
    seq(|ns| / 2, i requires 0 <= i < |ns| / 2 => 16 * ns[2 * i] + ns[2 * i + 1])
  }

  lemma {:induction false} NibblesSmall(text: seq<char>)
    ensures Nibbles(text).Some? ==>
              |Nibbles(text).value| <= |text| && forall i :: 0 <= i < |Nibbles(text).value| ==> 0 <= Nibbles(text).value[i] < 16
  {
    if text != [] {
      NibblesSmall(text[..|text| - 1]);
    }
  }

  /** Once a text is bad it stays so.  */
  lemma {:induction false} BadStays(text: seq<char>, k: nat)
    requires k <= |text| && Nibbles(text[..k]).None?
    ensures Nibbles(text).None?
    decreases |text| - k
  {
    if k < |text| {
      NibblesMore(text[..k], text[k]);
      assert text[..k] + [text[k]] == text[..k + 1];
      BadStays(text, k + 1);
    } else {
      assert text[..k] == text;
    }
  }

  /** The bytes of a text, or None.  */
  ghost function TextBytes(text: seq<char>): Option<seq<byte>> {
    var ns := Nibbles(text);
    NibblesSmall(text);
    if ns.None? || |ns.value| % 2 == 1 then None else Some(Packed(ns.value))
  }

  /** Digits that are all even in number and nothing else fill the buffer; an odd
      number of them with nothing else would run over it.  */
  predicate FitsBuffer(text: seq<char>) {
    |text| % 2 == 0 || exists i :: 0 <= i < |text| && Nibble(text[i]).None?
  }

  lemma {:induction false} NibblesFewer(text: seq<char>, k: nat)
    requires k <= |text| && Nibbles(text[..k]).Some?
    ensures |Nibbles(text[..k]).value| <= k
    ensures |Nibbles(text[..k]).value| == k ==> forall i :: 0 <= i < k ==> Nibble(text[i]).Some?
  {
    if k == 0 {
      assert text[..0] == [];
    } else {
      PrefixMore(text, k - 1);
      hide Nibbles, Nibble;
      NibblesFewer(text, k - 1);
    }
  }

  lemma PrefixMore(text: seq<char>, k: nat)
    requires k < |text|
    ensures text[..k] + [text[k]] == text[..k + 1]
    ensures Nibbles(text[..k + 1]).Some? ==>
              && Nibbles(text[..k]).Some?
              && |Nibbles(text[..k + 1]).value| == |Nibbles(text[..k]).value| + (if Nibble(text[k]).Some? then 1 else 0)
  {
    assert text[..k] + [text[k]] == text[..k + 1];
    NibblesMore(text[..k], text[k]);
    hide Nibbles;
  }

  /** The nibbles read so far are in the buffer.  */
  ghost predicate Stored(raw: seq<byte>, ns: seq<int>) {
    && (|ns| + 1) / 2 <= |raw| && (forall j :: 0 <= j < |ns| ==> 0 <= ns[j] < 16)
    && (forall b :: 0 <= b < |ns| / 2 ==> raw[b] == 16 * ns[2 * b] + ns[2 * b + 1])
    && (|ns| % 2 == 1 ==> raw[|ns| / 2] == 16 * ns[|ns| - 1])
  }

  method StoreNibble(raw: array<byte>, nibbleIdx: nat, nibble: int, ghost ns: seq<int>)
    requires Stored(raw[..], ns) && nibbleIdx == |ns| && 0 <= nibble < 16 && nibbleIdx / 2 < raw.Length
    modifies raw
    ensures Stored(raw[..], ns + [nibble])
  {
    if nibbleIdx % 2 == 1 {
      raw[nibbleIdx / 2] := raw[nibbleIdx / 2] + nibble; // the low half is still 0
    } else {
      raw[nibbleIdx / 2] := nibble * 16;
    }
  }

  /** The first half of CreateObjFromString.  */
  method ReadText(text: seq<char>) returns (r: Option<seq<byte>>)
    requires FitsBuffer(text)
    ensures r == TextBytes(text)
  {
    hide Nibbles, Nibble, FitsBuffer, Stored, Packed;
    var raw := new byte[|text| / 2];
    var nibbleIdx, i := 0, 0;
    ghost var ns: seq<int> := [];
    NoneRead(text, raw[..]);
    while i < |text|
      invariant 0 <= i <= |text| && Nibbles(text[..i]) == Some(ns) && nibbleIdx == |ns|
      invariant Stored(raw[..], ns)
    {
      OneRead(text, i, ns);
      var v := Nibble(text[i]);
      if v.None? {
        if !IsSpace(text[i]) {
          return None;
        }
        i := i + 1;
        continue;
      }
      StoreNibble(raw, nibbleIdx, v.value, ns);
      ns := ns + [v.value];
      nibbleIdx := nibbleIdx + 1;
      i := i + 1;
    }
    assert text[..i] == text;
    AllRead(text, raw[..], ns);
    if nibbleIdx % 2 == 1 {
      return None;
    }
    r := Some(raw[..nibbleIdx / 2]);
  }

  lemma NoneRead(text: seq<char>, raw: seq<byte>)
    ensures Nibbles(text[..0]) == Some([]) && Stored(raw, [])
  {
    assert text[..0] == [];
  }

  lemma OneRead(text: seq<char>, i: nat, ns: seq<int>)
    requires FitsBuffer(text) && i < |text| && Nibbles(text[..i]) == Some(ns)
    ensures var v := Nibble(text[i]);
            && (v.None? && IsSpace(text[i]) ==> Nibbles(text[..i + 1]) == Some(ns))
            && (v.None? && !IsSpace(text[i]) ==> TextBytes(text) == None)
            && (v.Some? ==> 0 <= v.value < 16 && Nibbles(text[..i + 1]) == Some(ns + [v.value]) && |ns| / 2 < |text| / 2)
  {
    assert text[..i] + [text[i]] == text[..i + 1];
    NibblesMore(text[..i], text[i]);
    NibblesFewer(text, i);
    NibbleSmall(text[i]);
    hide Nibbles;
    if Nibble(text[i]).None? {
      if !IsSpace(text[i]) {
        BadStays(text, i + 1);
      }
    } else {
      NibbleRoom(text, i, |ns|);
    }
  }

  lemma AllRead(text: seq<char>, raw: seq<byte>, ns: seq<int>)
    requires Nibbles(text) == Some(ns) && Stored(raw, ns)
    ensures |ns| / 2 <= |raw| && TextBytes(text) == if |ns| % 2 == 1 then None else Some(raw[..|ns| / 2])
  {
    hide Nibbles;
    if |ns| % 2 == 0 {
      assert raw[..|ns| / 2] == Packed(ns);
    }
  }

  lemma NibbleSmall(c: char)
    ensures Nibble(c).Some? ==> 0 <= Nibble(c).value < 16 && !IsSpace(c)
  {
  }

  lemma NibbleRoom(text: seq<char>, i: nat, n: nat)
    requires FitsBuffer(text) && i < |text| && n <= i && Nibble(text[i]).Some?
    requires n == i ==> forall j :: 0 <= j < i ==> Nibble(text[j]).Some?
    ensures n / 2 < |text| / 2
  {
  }

  /** The loop reads the digit at place k and stores it behind the buffer.  */
  ghost predicate RunsOver(text: seq<char>, k: int) {
    && 0 <= k < |text| && Nibbles(text[..k]).Some? && Nibble(text[k]).Some?
    && |Nibbles(text[..k]).value| / 2 >= |text| / 2
  }

  lemma {:induction false} DigitsOnly(text: seq<char>, k: nat)
    requires k <= |text| && forall i :: 0 <= i < k ==> Nibble(text[i]).Some?
    ensures Nibbles(text[..k]).Some? && |Nibbles(text[..k]).value| == k
  {
    if k == 0 {
      assert text[..0] == [];
    } else {
      DigitsOnly(text, k - 1);
      NibblesMore(text[..k - 1], text[k - 1]);
      NibbleSmall(text[k - 1]);
      assert text[..k - 1] + [text[k - 1]] == text[..k];
      hide Nibbles, Nibble;
    }
  }

  /** The buffer is too small exactly for the texts excluded above.  */
  lemma RunsOverWhen(text: seq<char>)
    ensures !FitsBuffer(text) <==> exists k :: RunsOver(text, k)
  {
    if FitsBuffer(text) {
      forall k | 0 <= k < |text| && Nibbles(text[..k]).Some?
        ensures !RunsOver(text, k)
      {
        OneRead(text, k, Nibbles(text[..k]).value);
      }
    } else {
      DigitsOnly(text, |text| - 1);
      assert RunsOver(text, |text| - 1);
    }
  }

  /** A single digit does, and so does a character of which only the low byte is a
      digit.  */
  lemma OneDigitRunsOver(c: char)
    requires c == '7' || c == '\U{0137}'
    ensures !FitsBuffer([c]) && RunsOver([c], 0)
  {
    assert [c][..0] == [];
    assert Low(c) == '7' as int;
  }

  /** Printing bytes and reading the text gives the bytes back.  */
  lemma HexRoundTrip(b: seq<byte>)
    ensures TextBytes(Hex(b)) == Some(b)
  {
    HexRead(b);
    NibblesSmall(Hex(b));
    hide Hex, Nibbles;
    assert Packed(Digits(b)) == b;
  }
}
