/** Sending a ROM file to the console: which packets are sent, and what they leave
    there.  */
module RomUpload {
  import opened Arith
  import opened Bytes
  import opened DbgPacket

  const BLOCKSIZE := 0x400
  const FILESIZE := 0x10_0000

  /** The buffer that a file is read into.  */
  type File = f: seq<byte> | |f| == FILESIZE witness seq(FILESIZE, i => 0)

  function PrgSize(f: File): int { 0x4000 * (f[4] as int) }

  function ChrSize(f: File): int { 0x2000 * (f[5] as int) }

  /** The header is one of an iNES file with mapper 0, at most two PRG banks and one
      CHR bank, and no four-screen mirroring.  */
  predicate Accepted(f: File) {
    && f[..4] == [0x4e, 0x45, 0x53, 0x1a] && f[4] <= 2 && f[5] <= 1
    && f[6] / 8 % 2 == 0 && f[6] / 16 == 0 && f[7] / 16 == 0
  }

  // --------------------------------------------------------- the receiver

  /** What the packets change on the console; the counters say how often each byte
      of memory was written.  */
  datatype Console = Console(cpu: seq<byte>, ppu: seq<byte>, cpuWrites: seq<nat>, ppuWrites: seq<nat>,
                             regs: seq<byte>, running: bool, ppuOn: bool, cart: seq<byte>)
  {
    predicate Valid() {
      && |cpu| == |cpuWrites| == 0x1_0000 && |ppu| == |ppuWrites| == 0x1_0000 && |regs| == 256
    }
  }

  /** One byte after the other; addresses wrap at 16 bits.  */
  function Write(mem: seq<byte>, addr: int, data: seq<byte>): (r: seq<byte>)
    requires |mem| == 0x1_0000
    ensures |r| == |mem|
  {
    if data == [] then mem
    else Write(mem, addr, data[..|data| - 1])[(addr + |data| - 1) % 0x1_0000 := data[|data| - 1]]
  }

  function Count(writes: seq<nat>, addr: int, n: nat): (r: seq<nat>)
    requires |writes| == 0x1_0000
    ensures |r| == |writes|
  {
    if n == 0 then writes
    else
      var w, a := Count(writes, addr, n - 1), (addr + n - 1) % 0x1_0000;
      w[a := w[a] + 1]
  }

  function Apply(c: Console, p: Packet): (r: Console)
    requires c.Valid()
    ensures r.Valid()
  {
    match p
    case CpuMemWr(addr, data) => c.(cpu := Write(c.cpu, addr, data), cpuWrites := Count(c.cpuWrites, addr, |data|))
    case PpuMemWr(addr, data) => c.(ppu := Write(c.ppu, addr, data), ppuWrites := Count(c.ppuWrites, addr, |data|))
    case CpuRegWr(reg, val) => c.(regs := c.regs[reg := val])
    case DbgHlt => c.(running := false)
    case DbgRun => c.(running := true)
    case PpuDisable => c.(ppuOn := false)
    case CartSetCfg(header) => c.(cart := header)
    case _ => c
  }

  function ApplyAll(c: Console, ps: seq<Packet>): (r: Console)
    requires c.Valid()
    ensures r.Valid()
  {
    if ps == [] then c else Apply(ApplyAll(c, ps[..|ps| - 1]), ps[|ps| - 1])
  }

  lemma ApplyMore(c: Console, ps: seq<Packet>, p: Packet)
    requires c.Valid()
    ensures ApplyAll(c, ps + [p]) == Apply(ApplyAll(c, ps), p)
  {
    assert (ps + [p])[..|ps|] == ps;
  }

  /** A write that stays inside the address space replaces the bytes there, and
      each of them once.  */
  lemma {:induction false} WriteInside(mem: seq<byte>, addr: int, data: seq<byte>)
    requires |mem| == 0x1_0000 && 0 <= addr && addr + |data| <= 0x1_0000
    ensures Write(mem, addr, data) == mem[..addr] + data + mem[addr + |data|..]
  {
    if data == [] {
      assert mem[..addr] + [] + mem[addr..] == mem;
    } else {
      var k := |data| - 1;
      var was, x := data[..k], data[k];
      WriteInside(mem, addr, was);
      LastByte(addr, k);
      assert Write(mem, addr, data) == Write(mem, addr, was)[(addr + k) % 0x1_0000 := x];
      hide Write;
      SpliceOne(mem, addr, was, x);
      assert was + [x] == data;
    }
  }

  lemma LastByte(addr: int, k: int)
    requires 0 <= addr + k < 0x1_0000
    ensures (addr + k) % 0x1_0000 == addr + k
  {
  }

  lemma SpliceOne(mem: seq<byte>, addr: int, was: seq<byte>, x: byte)
    requires 0 <= addr && addr + |was| < |mem|
    ensures (mem[..addr] + was + mem[addr + |was|..])[addr + |was| := x] == mem[..addr] + (was + [x]) + mem[addr + |was| + 1..]
  {
  }

  function Added(writes: seq<nat>, from: int, to: int): (r: seq<nat>)
    ensures |r| == |writes|
  {
    seq(|writes|, a requires 0 <= a < |writes| => if from <= a < to then writes[a] + 1 else writes[a])
  }

  lemma {:induction false} CountInside(writes: seq<nat>, addr: int, n: nat)
    requires |writes| == 0x1_0000 && 0 <= addr && addr + n <= 0x1_0000
    ensures Count(writes, addr, n) == Added(writes, addr, addr + n)
  {
    if n > 0 {
      CountInside(writes, addr, n - 1);
    }
  }

  // ------------------------------------------------------------- the sender

  /** The packets for the first n blocks of an image that starts at `from` in the
      file and goes to `addr`.  */
  function Blocks(f: File, ppu: bool, from: int, addr: int, n: nat): (ps: seq<Packet>)
    requires 0 <= from && from + BLOCKSIZE * n <= FILESIZE
    ensures |ps| == n
  {
    if n == 0 then []
    else
      var k := BLOCKSIZE * (n - 1);
      var data := f[from + k..from + k + BLOCKSIZE];
      Blocks(f, ppu, from, addr, n - 1) + [MemWr(ppu, addr + k, data)]
  }

  /** The console with `data` in memory from `addr` on, each byte written once, and
      otherwise as it was.  */
  function Loaded(c: Console, ppu: bool, addr: int, data: seq<byte>): (r: Console)
    requires c.Valid() && 0 <= addr && addr + |data| <= 0x1_0000
    ensures r.Valid()
  {
    var e := addr + |data|;
    if ppu then c.(ppu := c.ppu[..addr] + data + c.ppu[e..], ppuWrites := Added(c.ppuWrites, addr, e))
    else c.(cpu := c.cpu[..addr] + data + c.cpu[e..], cpuWrites := Added(c.cpuWrites, addr, e))
  }

  function MemWr(ppu: bool, addr: int, data: seq<byte>): Packet {
    if ppu then PpuMemWr(addr, data) else CpuMemWr(addr, data)
  }

  lemma LoadedNothing(c: Console, ppu: bool, addr: int)
    requires c.Valid() && 0 <= addr <= 0x1_0000
    ensures Loaded(c, ppu, addr, []) == c
  {
    assert c.ppu[..addr] + [] + c.ppu[addr..] == c.ppu && c.cpu[..addr] + [] + c.cpu[addr..] == c.cpu;
    assert Added(c.ppuWrites, addr, addr) == c.ppuWrites && Added(c.cpuWrites, addr, addr) == c.cpuWrites;
  }

  lemma LoadedMore(c: Console, ppu: bool, addr: int, was: seq<byte>, data: seq<byte>)
    requires c.Valid() && 0 <= addr && addr + |was| + |data| <= 0x1_0000
    ensures Apply(Loaded(c, ppu, addr, was), MemWr(ppu, addr + |was|, data)) == Loaded(c, ppu, addr, was + data)
  {
    OneBlock(if ppu then c.ppu else c.cpu, if ppu then c.ppuWrites else c.cpuWrites, addr, |was|, was, data);
    hide Write, Count, Added;
  }

  lemma OneBlock(mem: seq<byte>, writes: seq<nat>, addr: int, k: int, was: seq<byte>, data: seq<byte>)
    requires |mem| == |writes| == 0x1_0000 && 0 <= addr && 0 <= k == |was| && addr + k + |data| <= 0x1_0000
    ensures Write(mem[..addr] + was + mem[addr + k..], addr + k, data) == mem[..addr] + (was + data) + mem[addr + k + |data|..]
    ensures Count(Added(writes, addr, addr + k), addr + k, |data|) == Added(writes, addr, addr + k + |data|)
  {
    WriteInside(mem[..addr] + was + mem[addr + k..], addr + k, data);
    CountInside(Added(writes, addr, addr + k), addr + k, |data|);
  }

  /** The packets of an image load it.  */
  lemma {:induction false} BlocksApply(c: Console, f: File, ppu: bool, from: int, addr: int, n: nat)
    requires c.Valid() && 0 <= from && from + BLOCKSIZE * n <= FILESIZE && 0 <= addr && addr + BLOCKSIZE * n <= 0x1_0000
    ensures ApplyAll(c, Blocks(f, ppu, from, addr, n)) == Loaded(c, ppu, addr, f[from..from + BLOCKSIZE * n])
  {
    hide Loaded, Apply, ApplyAll, MemWr, Blocks;
    if n == 0 {
      LoadedNothing(c, ppu, addr);
      NoBlocks(c, f, ppu, from, addr);
    } else {
      var k := BLOCKSIZE * (n - 1);
      var was, data := f[from..from + k], f[from + k..from + k + BLOCKSIZE];
      BlocksApply(c, f, ppu, from, addr, n - 1);
      BlocksMore(f, ppu, from, addr, n - 1);
      ApplyMore(c, Blocks(f, ppu, from, addr, n - 1), MemWr(ppu, addr + k, data));
      LoadedMore(c, ppu, addr, was, data);
      assert was + data == f[from..from + BLOCKSIZE * n];
    }
  }

  lemma NoBlocks(c: Console, f: File, ppu: bool, from: int, addr: int)
    requires c.Valid() && 0 <= from <= FILESIZE
    ensures Blocks(f, ppu, from, addr, 0) == [] && ApplyAll(c, []) == c && f[from..from] == []
  {
  }

  lemma BlocksMore(f: File, ppu: bool, from: int, addr: int, n: nat)
    requires 0 <= from && from + BLOCKSIZE * (n + 1) <= FILESIZE
    ensures var k := BLOCKSIZE * n;
            Blocks(f, ppu, from, addr, n + 1)
            == Blocks(f, ppu, from, addr, n) + [MemWr(ppu, addr + k, f[from + k..from + k + BLOCKSIZE])]
  {
  }

  function Prefix(f: File): seq<Packet> { [DbgHlt, PpuDisable, CartSetCfg(f[4..9])] }

  /** The program counter: the word four bytes before the end of the PRG image.  */
  function PcLow(f: File): byte
    requires Accepted(f)
  {
    f[16 + PrgSize(f) - 4]
  }

  function PcHigh(f: File): byte
    requires Accepted(f)
  {
    f[16 + PrgSize(f) - 3]
  }

  /** Everything that is sent for a file.  */
  function Packets(f: File): seq<Packet>
    requires Accepted(f)
  {
    Prefix(f) + Blocks(f, false, 16, 0x8000, 16 * f[4]) + Blocks(f, true, 16 + PrgSize(f), 0, 8 * f[5])
    + [CpuRegWr(0, PcLow(f)), CpuRegWr(1, PcHigh(f)), DbgRun]
  }

  lemma {:induction false} BlocksValid(f: File, ppu: bool, from: int, addr: int, n: nat)
    requires 0 <= from && from + BLOCKSIZE * n <= FILESIZE && 0 <= addr && addr + BLOCKSIZE * n <= 0x1_0000
    ensures AllValid(Blocks(f, ppu, from, addr, n))
  {
    if n > 0 {
      BlocksValid(f, ppu, from, addr, n - 1);
    }
  }

  lemma {:induction false} ApplyParts(c: Console, ps: seq<Packet>, qs: seq<Packet>)
    requires c.Valid()
    ensures ApplyAll(c, ps + qs) == ApplyAll(ApplyAll(c, ps), qs)
    decreases |qs|
  {
    if qs == [] {
      assert ps + qs == ps;
    } else {
      var k := |qs| - 1;
      assert (ps + qs)[..|ps| + k] == ps + qs[..k];
      ApplyParts(c, ps, qs[..k]);
    }
  }

  lemma PacketsValid(f: File)
    requires Accepted(f)
    ensures AllValid(Packets(f))
  {
    BlocksValid(f, false, 16, 0x8000, 16 * f[4]);
    BlocksValid(f, true, 16 + PrgSize(f), 0, 8 * f[5]);
    hide Blocks;
  }

  /** What the console does on a stream of bytes.  */
  function Replay(c: Console, s: seq<byte>): Option<Console>
    requires c.Valid()
  {
    var ps := Split(s);
    if ps.None? then None else Some(ApplyAll(c, ps.value))
  }

  /** Whatever state the console is in, after the upload of an accepted file its
      memory from $8000 on is the PRG image and the picture memory from 0 on the CHR
      image, each byte written once and no other; it runs, from the address in the
      PRG image's last four bytes.  */
  lemma UploadWorks(f: File, c: Console)
    requires Accepted(f) && c.Valid()
    ensures Replay(c, EncodeAll(Packets(f))).Some?
    ensures var r := Replay(c, EncodeAll(Packets(f))).value;
            var prg, chr := f[16..16 + PrgSize(f)], f[16 + PrgSize(f)..16 + PrgSize(f) + ChrSize(f)];
            && r.cpu == c.cpu[..0x8000] + prg + c.cpu[0x8000 + |prg|..] && r.ppu == chr + c.ppu[|chr|..]
            && r.cpuWrites == Added(c.cpuWrites, 0x8000, 0x8000 + |prg|) && r.ppuWrites == Added(c.ppuWrites, 0, |chr|)
            && r.regs[0] == PcLow(f) && r.regs[1] == PcHigh(f) && r.running && !r.ppuOn && r.cart == f[4..9]
  {
    hide Packets, Apply, ApplyAll, Blocks, Split, EncodeAll, Added, Write, Count, AllValid;
    PacketsValid(f);
    SplitIs(Packets(f));
    UploadApplies(f, c);
  }

  lemma UploadApplies(f: File, c: Console)
    requires Accepted(f) && c.Valid()
    ensures var prg, chr := f[16..16 + PrgSize(f)], f[16 + PrgSize(f)..16 + PrgSize(f) + ChrSize(f)];
            var r := Loaded(Loaded(c.(running := false, ppuOn := false, cart := f[4..9]), false, 0x8000, prg), true, 0, chr);
            ApplyAll(c, Packets(f)) == r.(regs := r.regs[0 := PcLow(f)][1 := PcHigh(f)], running := true)
  {
    var head, tail := Prefix(f), [CpuRegWr(0, PcLow(f)), CpuRegWr(1, PcHigh(f)), DbgRun];
    var prg, chr := Blocks(f, false, 16, 0x8000, 16 * f[4]), Blocks(f, true, 16 + PrgSize(f), 0, 8 * f[5]);
    assert Packets(f) == head + prg + chr + tail;
    hide Blocks, ApplyAll, Prefix, Apply, Loaded, Packets;
    Head(c, f);
    FourParts(c, head, prg, chr, tail);
    var c1 := c.(running := false, ppuOn := false, cart := f[4..9]);
    ImagesApply(c1, f);
    hide PrgSize, ChrSize, Accepted;
    var c2 := ApplyAll(c1, prg);
    ImagesApply(c2, f);
    Tail(ApplyAll(c2, chr), PcLow(f), PcHigh(f));
  }

  lemma ImagesApply(c: Console, f: File)
    requires Accepted(f) && c.Valid()
    ensures 0 <= PrgSize(f) <= 0x8000 && 0 <= ChrSize(f) <= 0x2000
    ensures ApplyAll(c, Blocks(f, false, 16, 0x8000, 16 * f[4])) == Loaded(c, false, 0x8000, f[16..16 + PrgSize(f)])
    ensures ApplyAll(c, Blocks(f, true, 16 + PrgSize(f), 0, 8 * f[5]))
            == Loaded(c, true, 0, f[16 + PrgSize(f)..16 + PrgSize(f) + ChrSize(f)])
  {
    hide Blocks, ApplyAll, Loaded;
    BlocksApply(c, f, false, 16, 0x8000, 16 * f[4]);
    BlocksApply(c, f, true, 16 + PrgSize(f), 0, 8 * f[5]);
  }

  lemma FourParts(c: Console, p: seq<Packet>, q: seq<Packet>, r: seq<Packet>, s: seq<Packet>)
    requires c.Valid()
    ensures ApplyAll(c, p + q + r + s) == ApplyAll(ApplyAll(ApplyAll(ApplyAll(c, p), q), r), s)
  {
    hide ApplyAll;
    ApplyParts(c, p, q);
    ApplyParts(c, p + q, r);
    ApplyParts(c, p + q + r, s);
  }

  lemma Head(c: Console, f: File)
    requires c.Valid()
    ensures ApplyAll(c, Prefix(f)) == c.(running := false, ppuOn := false, cart := f[4..9])
  {
    ApplyMore(c, [], DbgHlt);
    ApplyMore(c, [DbgHlt], PpuDisable);
    ApplyMore(c, [DbgHlt, PpuDisable], CartSetCfg(f[4..9]));
    assert [] + [DbgHlt] == [DbgHlt] && [DbgHlt] + [PpuDisable] == [DbgHlt, PpuDisable];
    assert [DbgHlt, PpuDisable] + [CartSetCfg(f[4..9])] == Prefix(f);
  }

  lemma Tail(c: Console, lo: byte, hi: byte)
    requires c.Valid()
    ensures ApplyAll(c, [CpuRegWr(0, lo), CpuRegWr(1, hi), DbgRun]) == c.(regs := c.regs[0 := lo][1 := hi], running := true)
  {
    ApplyMore(c, [], CpuRegWr(0, lo));
    ApplyMore(c, [CpuRegWr(0, lo)], CpuRegWr(1, hi));
    ApplyMore(c, [CpuRegWr(0, lo), CpuRegWr(1, hi)], DbgRun);
    assert [] + [CpuRegWr(0, lo)] == [CpuRegWr(0, lo)] && [CpuRegWr(0, lo)] + [CpuRegWr(1, hi)] == [CpuRegWr(0, lo), CpuRegWr(1, hi)];
    assert [CpuRegWr(0, lo), CpuRegWr(1, hi)] + [DbgRun] == [CpuRegWr(0, lo), CpuRegWr(1, hi), DbgRun];
  }

  /** SendData, given the packet and its size.  */
  method SendData(sent: seq<byte>, data: array<byte>, ghost ps: seq<Packet>, ghost p: Packet) returns (more: seq<byte>)
    requires p.Valid() && data[..] == Encode(p) && sent == EncodeAll(ps)
    ensures more == EncodeAll(ps + [p])
  {
    FirstIs(p, []);
    EncodeMore(ps, p);
    assert data[..SizeInBytes(data[..])] == data[..];
    more := sent + data[..SizeInBytes(data[..])];
  }

  /** The loops that send an image block by block.  */
  method SendImage(sent0: seq<byte>, f: File, ppu: bool, from: int, addr: int, size: int, ghost ps: seq<Packet>) returns (sent: seq<byte>)
    requires sent0 == EncodeAll(ps) && 0 <= size && 0 <= from && from + size <= FILESIZE && 0 <= addr && addr + size <= 0x1_0000
    ensures sent == EncodeAll(ps + Blocks(f, ppu, from, addr, size / BLOCKSIZE))
  {
    hide Blocks, Encode, EncodeAll, MemWr;
    sent := sent0;
    var i := 0;
    NoneSent(f, ppu, from, addr, ps);
    while i < size / BLOCKSIZE
      invariant 0 <= i <= size / BLOCKSIZE && sent == EncodeAll(ps + Blocks(f, ppu, from, addr, i))
    {
      var offset := BLOCKSIZE * i;
      var data := f[from + offset..from + offset + BLOCKSIZE];
      var packet := NewMemWr(ppu, addr + offset, data);
      ghost var p := MemWr(ppu, addr + offset, data);
      BlocksMore(f, ppu, from, addr, i);
      IsMemWr(ppu, addr + offset, data);
      sent := SendData(sent, packet, ps + Blocks(f, ppu, from, addr, i), p);
      assert ps + Blocks(f, ppu, from, addr, i) + [p] == ps + (Blocks(f, ppu, from, addr, i) + [p]);
      i := i + 1;
    }
  }

  lemma NoneSent(f: File, ppu: bool, from: int, addr: int, ps: seq<Packet>)
    requires 0 <= from <= FILESIZE
    ensures ps + Blocks(f, ppu, from, addr, 0) == ps
  {
  }

  lemma IsMemWr(ppu: bool, addr: int, data: seq<byte>)
    requires 0 <= addr < 0x1_0000 && |data| < 0x1_0000
    ensures MemWr(ppu, addr, data) == (if ppu then PpuMemWr(addr, data) else CpuMemWr(addr, data)) && MemWr(ppu, addr, data).Valid()
  {
  }

  /** LoadRom, from the file in its buffer to the bytes on the line.  */
  method LoadRom(f: File) returns (success: bool, sent: seq<byte>)
    ensures success <==> Accepted(f)
    ensures sent == if success then EncodeAll(Packets(f)) else []
  {
    sent := [];
    success := true;
    if f[0] != 0x4e || f[1] != 0x45 || f[2] != 0x53 || f[3] != 0x1a {
      success := false;
    }
    if f[4] > 2 || f[5] > 1 {
      success := false;
    }
    if f[6] / 8 % 2 == 1 {
      success := false;
    }
    if f[6] / 16 + f[7] / 16 * 16 != 0 {
      success := false;
    }
    assert f[..4] == [f[0], f[1], f[2], f[3]];
    assert success <==> Accepted(f);
    if !success {
      return;
    }
    hide Blocks, Encode, EncodeAll;
    sent := SendPrefix(f);
    ghost var ps := Prefix(f);
    sent := SendImage(sent, f, false, 16, 0x8000, PrgSize(f), ps);
    ps := ps + Blocks(f, false, 16, 0x8000, 16 * f[4]);
    sent := SendImage(sent, f, true, 16 + PrgSize(f), 0, ChrSize(f), ps);
    ps := ps + Blocks(f, true, 16 + PrgSize(f), 0, 8 * f[5]);
    sent := SendStart(sent, PcLow(f), PcHigh(f), ps);
  }

  method SendPrefix(f: File) returns (sent: seq<byte>)
    ensures sent == EncodeAll(Prefix(f))
  {
    assert EncodeAll([]) == [] && f[4..9] == [f[4], f[5], f[6], f[7], f[8]];
    var halt := new byte[] [0x03];
    var disable := new byte[] [0x0b];
    var config := new byte[] [0x0c, f[4], f[5], f[6], f[7], f[8]];
    assert config[..] == Encode(CartSetCfg(f[4..9])) && halt[..] == Encode(DbgHlt) && disable[..] == Encode(PpuDisable);
    hide Encode, EncodeAll;
    sent := SendData([], halt, [], DbgHlt);
    sent := SendData(sent, disable, [] + [DbgHlt], PpuDisable);
    sent := SendData(sent, config, [] + [DbgHlt] + [PpuDisable], CartSetCfg(f[4..9]));
    assert [] + [DbgHlt] + [PpuDisable] + [CartSetCfg(f[4..9])] == Prefix(f);
  }

  method SendStart(sent0: seq<byte>, lo: byte, hi: byte, ghost ps: seq<Packet>) returns (sent: seq<byte>)
    requires sent0 == EncodeAll(ps)
    ensures sent == EncodeAll(ps + [CpuRegWr(0, lo), CpuRegWr(1, hi), DbgRun])
  {
    var pcl := new byte[] [0x06, 0x00, lo];
    var pch := new byte[] [0x06, 0x01, hi];
    var run := new byte[] [0x04];
    assert pcl[..] == Encode(CpuRegWr(0, lo)) && pch[..] == Encode(CpuRegWr(1, hi)) && run[..] == Encode(DbgRun);
    hide Encode, EncodeAll;
    sent := SendData(sent0, pcl, ps, CpuRegWr(0, lo));
    sent := SendData(sent, pch, ps + [CpuRegWr(0, lo)], CpuRegWr(1, hi));
    sent := SendData(sent, run, ps + [CpuRegWr(0, lo)] + [CpuRegWr(1, hi)], DbgRun);
    assert ps + [CpuRegWr(0, lo)] + [CpuRegWr(1, hi)] + [DbgRun] == ps + [CpuRegWr(0, lo), CpuRegWr(1, hi), DbgRun];
  }
}
