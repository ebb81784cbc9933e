/** The block driver's side of the card: the registers of its processor, the
    multi-block modes, read-ahead and write-behind.  */
module SpiCog {
  import opened Arith

  /** A block, as the 128 longs that are moved.  */
  type Sector = s: seq<int> | |s| == 128 witness seq(128, i => 0)

  /** The blocks of a card; it has one for every number.  */
  type Blocks = imap<int, Sector>

  const CMD_R := 114
  const CMD_W := 119
  const CMD_Z := 122
  const CMD_T := 116

  /** What the card is doing: nothing, or a multi-block transfer whose next block
      is known.  */
  datatype CardMode = Idle | ReadMulti(next: int) | WriteMulti(next: int)

  /** The registers of the driver, its buffer, and the card.  */
  datatype Core = Core(userCmd: int, userIdx: int, lastIndexPlus: int, lastCommand: int, buf: Sector,
                       mode: CardMode, blocks: Blocks)
  {
    ghost predicate Total() { forall n :: n in blocks }

    /** The mode that the driver remembers is the one that the card is in.  */
    predicate Agrees() {
      mode == if lastCommand == CMD_R then ReadMulti(lastIndexPlus)
              else if lastCommand == CMD_W then WriteMulti(lastIndexPlus)
              else Idle
    }

    /** A command can be handled: the kind of transfer that the driver remembers is
        the one going on, and so is its next block unless all is to be given up.  */
    ghost predicate Usable() {
      && Total() && (userCmd == CMD_Z || Agrees())
      && (lastCommand == CMD_R <==> mode.ReadMulti?) && (lastCommand == CMD_W <==> mode.WriteMulti?)
    }

    /** The buffer holds the block before the one that the card would send.  */
    predicate Prefetched()
    {
      lastCommand == CMD_R ==> lastIndexPlus - 1 in blocks && buf == blocks[lastIndexPlus - 1]
    }
  }

  /** What a command comes to, whatever mode the card was in.  */
  function Handled(c: Core): Core
    requires c.userIdx in c.blocks
  {
    var d := c.(userCmd := 0, lastIndexPlus := c.userIdx + 1, lastCommand := c.userCmd);
    if c.userCmd == CMD_R then d.(buf := c.blocks[c.userIdx], mode := ReadMulti(c.userIdx + 1))
    else if c.userCmd == CMD_W then d.(blocks := c.blocks[c.userIdx := c.buf], mode := WriteMulti(c.userIdx + 1))
    else d.(mode := Idle)
  }

  function Release(c: Core): Core { c.(userCmd := CMD_Z, lastIndexPlus := -1, userIdx := -1) }

  /** What reading, and then reading ahead, comes to.  */
  function Loaded(c: Core, idx: int): Core
    requires idx in c.blocks
  {
    if idx + 1 == c.lastIndexPlus && c.lastCommand == CMD_R then c.(userIdx := idx)
    else Handled(c.(userIdx := idx, userCmd := CMD_R))
  }

  lemma LoadedBlock(c: Core, idx: int)
    requires c.Total() && c.Agrees() && c.Prefetched() && c.userCmd == 0
    ensures var d := Loaded(c, idx);
            && d.buf == c.blocks[idx] && d.blocks == c.blocks && d.userCmd == 0 && d.userIdx == idx
            && d.Agrees() && d.Prefetched() && d.lastCommand == CMD_R && d.lastIndexPlus == idx + 1
  {
  }

  /** The order in which the longs of a block are moved: four passes with a stride
      of four.  */
  function LongAt(k: int): int { 4 * (k % 32) + k / 32 }

  lemma LongsMoved(p: int)
    requires 0 <= p < 128
    ensures var k := 32 * (p % 4) + p / 4;
            0 <= k < 128 && LongAt(k) == p
  {
  }

  lemma LongInside(k: int)
    requires 0 <= k < 128
    ensures 0 <= LongAt(k) < 128
  {
  }

  class Cog {
    var userCmd: int
    var userIdx: int
    var lastIndexPlus: int
    var lastCommand: int
    var idleTime: int
    var seconds: int
    var dtime: int
    var lastTime: int
    const speedBuf: array<int>
    var mode: CardMode
    var blocks: Blocks

    ghost predicate Valid()
      reads this, speedBuf
    {
      speedBuf.Length == 128 && State().Total() && State().Agrees()
    }

    /** The registers as a value.  */
    ghost function State(): Core
      reads this, speedBuf
      requires speedBuf.Length == 128
    {
      Core(userCmd, userIdx, lastIndexPlus, lastCommand, speedBuf[..], mode, blocks)
    }

    /** Before the first command.  */
    constructor (card: Blocks)
      requires forall n :: n in card
      ensures Valid() && blocks == card && userCmd == 0 && State().Prefetched()
      ensures lastIndexPlus == -1 && lastCommand == 0 && mode == Idle && seconds == dtime == idleTime == 0
    {
      userCmd, userIdx, lastIndexPlus, lastCommand := 0, 0, -1, 0;
      idleTime, seconds, dtime, lastTime := 0, 0, 0, 0;
      mode, blocks := Idle, card;
      speedBuf := new int[128];
    }

    // The card accepts a command to start a transfer only when it is idle, and one
    // to end a transfer only in the transfer: the preconditions of these four.

    method StartMbRead()
      requires mode == Idle
      modifies this`mode
      ensures mode == ReadMulti(userIdx)
    {
      mode := ReadMulti(userIdx);
    }

    method StopMbRead()
      requires mode.ReadMulti?
      modifies this`mode
      ensures mode == Idle
    {
      mode := Idle;
    }

    method StartMbWrite()
      requires mode == Idle
      modifies this`mode
      ensures mode == WriteMulti(userIdx)
    {
      mode := WriteMulti(userIdx);
    }

    method StopMbWrite()
      requires mode.WriteMulti?
      modifies this`mode
      ensures mode == Idle
    {
      mode := Idle;
    }

    /** The card sends its next block.  */
    method ReadSingleBlock()
      requires speedBuf.Length == 128 && mode.ReadMulti? && mode.next in blocks
      modifies this`mode, this`userCmd, this`idleTime, speedBuf
      ensures speedBuf[..] == blocks[old(mode.next)] && mode == ReadMulti(old(mode.next) + 1) && userCmd == 0
    {
      var sent, i := blocks[mode.next], 0;
      while i < 128
        invariant 0 <= i <= 128 && speedBuf[..i] == sent[..i]
        modifies speedBuf
      {
        speedBuf[i] := sent[i];
        i := i + 1;
      }
      mode := ReadMulti(mode.next + 1);
      idleTime := 0;
      userCmd := 0;
    }

    /** The card takes its next block.  */
    method WriteSingleBlock()
      requires speedBuf.Length == 128 && mode.WriteMulti?
      modifies this`mode, this`blocks, this`userCmd, this`idleTime
      ensures blocks == old(blocks)[old(mode.next) := speedBuf[..]] && mode == WriteMulti(old(mode.next) + 1) && userCmd == 0
    {
      blocks := blocks[mode.next := speedBuf[..]];
      mode := WriteMulti(mode.next + 1);
      userCmd := 0;
      idleTime := 0;
    }

    /** Executes userCmd on block userIdx.  Staying in a multi-block mode when the
        next block is the one wanted cannot be told from leaving it and starting
        anew.  */
    method HandleCommand()
      requires speedBuf.Length == 128 && State().Usable() && (userCmd == CMD_R || userCmd == CMD_W || userCmd == CMD_Z)
      modifies this`userCmd, this`lastIndexPlus, this`lastCommand, this`mode, this`blocks, this`idleTime, speedBuf
      ensures Valid() && State() == Handled(old(State()))
    {
      if lastIndexPlus == userIdx && userCmd == lastCommand {
      } else {
        if lastCommand == CMD_W {
          StopMbWrite();
        }
        if lastCommand == CMD_R {
          StopMbRead();
        }
        if userCmd == CMD_W {
          StartMbWrite();
        }
        if userCmd == CMD_R {
          StartMbRead();
        }
      }
      lastIndexPlus := userIdx;
      lastIndexPlus := lastIndexPlus + 1;
      lastCommand := userCmd;
      if userCmd == CMD_W {
        WriteSingleBlock();
      } else if userCmd == CMD_R {
        ReadSingleBlock();
      } else if userCmd == CMD_Z {
        userCmd := 0;
      }
    }

    /** The release of the card, on request or after the idle limit.  */
    method DoRelease()
      requires Valid()
      modifies this`userCmd, this`userIdx, this`lastIndexPlus, this`lastCommand, this`mode, this`blocks, this`idleTime, speedBuf
      ensures Valid() && State() == Handled(Release(old(State()))) && mode == Idle
    {
      userCmd := CMD_Z;
      lastIndexPlus := -1;
      userIdx := -1;
      HandleCommand();
    }

    /** Keeps the clock, and releases the card when it has been idle for long.  */
    method HandleTime(cnt: int, clkfreq: int, idleLimit: int)
      requires Valid()
      modifies this, speedBuf
      ensures Valid() && blocks == old(blocks) && lastTime == cnt
      ensures seconds * clkfreq + dtime == old(seconds * clkfreq + dtime) + (cnt - old(lastTime))
      ensures State() == if old(idleTime) + (cnt - old(lastTime)) < idleLimit then old(State()) else Handled(Release(old(State())))
    {
      idleTime := idleTime + cnt - lastTime;
      dtime := dtime + cnt - lastTime;
      lastTime := cnt;
      if dtime >= clkfreq {
        dtime := dtime - clkfreq;
        seconds := seconds + 1;
        assert seconds * clkfreq == (seconds - 1) * clkfreq + clkfreq;
      }
      if idleTime < idleLimit {
        return;
      }
      DoRelease();
    }

    /** hub_cog_transfer towards the hub: long by long, in four passes.  */
    method ToHub(ram: array<int>, at: int)
      requires speedBuf.Length == 128 && ram != speedBuf && 0 <= at && at + 128 <= ram.Length
      modifies ram
      ensures ram[at..at + 128] == speedBuf[..]
      ensures forall x :: 0 <= x < ram.Length && !(at <= x < at + 128) ==> ram[x] == old(ram[x])
    {
      var reg, ptr, pass := 0, at, 0;
      while pass < 4
        invariant 0 <= pass <= 4 && reg == pass && ptr == at + pass
        invariant forall x :: 0 <= x < ram.Length && !(at <= x < at + 128) ==> ram[x] == old(ram[x])
        invariant forall j :: 0 <= j < 128 && j % 4 < pass ==> ram[at + j] == speedBuf[j]
      {
        var phsb, i := ptr, 0;
        while i < 32
          invariant 0 <= i <= 32 && reg == pass + 4 * i && phsb == ptr + 4 * i
          invariant forall x :: 0 <= x < ram.Length && !(at <= x < at + 128) ==> ram[x] == old(ram[x])
          invariant forall j :: 0 <= j < 128 && (j % 4 < pass || (j % 4 == pass && j / 4 < i)) ==> ram[at + j] == speedBuf[j]
        {
          ram[phsb] := speedBuf[reg];
          reg := reg + 4;
          phsb := phsb + 4;
          i := i + 1;
        }
        reg := reg - 127;
        ptr := ptr + 1;
        pass := pass + 1;
      }
    }

    /** hub_cog_transfer from the hub.  */
    method FromHub(ram: array<int>, at: int)
      requires speedBuf.Length == 128 && ram != speedBuf && 0 <= at && at + 128 <= ram.Length
      modifies speedBuf
      ensures speedBuf[..] == ram[at..at + 128]
    {
      var reg, ptr, pass := 0, at, 0;
      while pass < 4
        invariant 0 <= pass <= 4 && reg == pass && ptr == at + pass
        invariant forall j :: 0 <= j < 128 && j % 4 < pass ==> speedBuf[j] == ram[at + j]
      {
        var phsb, i := ptr, 0;
        while i < 32
          invariant 0 <= i <= 32 && reg == pass + 4 * i && phsb == ptr + 4 * i
          invariant forall j :: 0 <= j < 128 && (j % 4 < pass || (j % 4 == pass && j / 4 < i)) ==> speedBuf[j] == ram[at + j]
        {
          speedBuf[reg] := ram[phsb];
          reg := reg + 4;
          phsb := phsb + 4;
          i := i + 1;
        }
        reg := reg - 127;
        ptr := ptr + 1;
        pass := pass + 1;
      }
    }

    /** The first half of read_ahead: loads block `idx` unless it is there.  */
    method Load(idx: int)
      requires Valid() && State().Prefetched() && userCmd == 0
      modifies this`userCmd, this`userIdx, this`lastIndexPlus, this`lastCommand, this`mode, this`blocks, this`idleTime, speedBuf
      ensures Valid() && State() == Loaded(old(State()), idx)
    {
      userIdx := idx;
      if userIdx + 1 == lastIndexPlus && lastCommand == CMD_R {
        return;
      }
      userCmd := CMD_R;
      HandleCommand();
    }

    /** read_ahead, for a caller that waits: hands over block `idx`, then fetches the
        next one.  */
    method ReadAhead(idx: int, ram: array<int>, at: int) returns (answer: int)
      requires Valid() && State().Prefetched() && userCmd == 0
      requires ram != speedBuf && 0 <= at && at + 128 <= ram.Length
      modifies this`userCmd, this`userIdx, this`lastIndexPlus, this`lastCommand, this`mode, this`blocks, this`idleTime, speedBuf, ram
      ensures Valid() && State().Prefetched() && userCmd == 0 && answer == 0 && blocks == old(blocks)
      ensures idx in blocks && ram[at..at + 128] == blocks[idx]
      ensures forall x :: 0 <= x < ram.Length && !(at <= x < at + 128) ==> ram[x] == old(ram[x])
      ensures mode == ReadMulti(idx + 2)
    {
      Load(idx);
      ToHub(ram, at);
      answer := userCmd;
      userCmd := CMD_R;
      userIdx := userIdx + 1;
      HandleCommand();
    }

    /** write_behind: takes over the data, then stores it.  */
    method WriteBehind(idx: int, ram: array<int>, at: int) returns (answer: int)
      requires Valid() && userCmd == 0
      requires ram != speedBuf && 0 <= at && at + 128 <= ram.Length
      modifies this`userCmd, this`userIdx, this`lastIndexPlus, this`lastCommand, this`mode, this`blocks, this`idleTime, speedBuf
      ensures Valid() && State().Prefetched() && userCmd == 0 && answer == 0
      ensures blocks == old(blocks)[idx := ram[at..at + 128]] && mode == WriteMulti(idx + 1)
    {
      userIdx := idx;
      FromHub(ram, at);
      answer := userCmd;
      userCmd := CMD_W;
      HandleCommand();
    }
  }
}
