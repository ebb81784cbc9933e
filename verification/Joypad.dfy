/** The joypad port: the latch behind the debouncers, and the shift register that a
    program reads at $4016 after it has written 1 and then 0 there.  */
module Joypad {
  import opened Arith

  const PORT1 := 0x4016

  /** Eight buttons, the first of them read first.  */
  type Buttons = b: seq<bool> | |b| == 8 witness [false, false, false, false, false, false, false, false]

  const RELEASED: Buttons := [false, false, false, false, false, false, false, false]

  // ----------------------------------------------------------------- latch

  /** joypad_reg, d_jp1_state and q_jp1_state.  */
  datatype Latch = Latch(reg: Buttons, d: Buttons, q: Buttons)

  /** The reset signal rises: joypad_reg is cleared at once, the others are not
      sensitive to that edge.  */
  function LatchReset(s: Latch): Latch { s.(reg := RELEASED) }

  /** A clock edge with the debounced level `level`.  A reset keeps joypad_reg
      cleared and clears q_jp1_state; d_jp1_state has no reset.  */
  function LatchNext(s: Latch, level: Buttons, reset: bool): Latch {
    var reg := if reset then RELEASED else s.reg;
    Latch(if reset then RELEASED else level, if level != reg then level else s.d, if reset then RELEASED else s.d)
  }

  /** Clock edges without a reset.  */
  function LatchFrom(s: Latch, levels: seq<Buttons>): Latch {
    if levels == [] then s
    else LatchNext(LatchFrom(s, levels[..|levels| - 1]), levels[|levels| - 1], false)
  }

  const POWER_UP := Latch(RELEASED, RELEASED, RELEASED)

  function LatchAfter(levels: seq<Buttons>): Latch { LatchFrom(POWER_UP, levels) }

  predicate AllReleased(levels: seq<Buttons>) {
    forall i :: 0 <= i < |levels| ==> levels[i] == RELEASED
  }

  /** From a cleared joypad_reg on, the latch takes the latest level as soon as some
      button has been held, and keeps what it had until then.  */
  lemma {:induction false} LatchIs(s: Latch, levels: seq<Buttons>)
    requires s.reg == RELEASED
    ensures var t, n := LatchFrom(s, levels), |levels|;
            && t.reg == (if n >= 1 then levels[n - 1] else RELEASED)
            && t.d == (if AllReleased(levels) then s.d else levels[n - 1])
            && t.q == if n >= 1 then LatchFrom(s, levels[..n - 1]).d else s.q
  {
    if levels != [] {
      var k := |levels| - 1;
      LatchIs(s, levels[..k]);
      assert AllReleased(levels) <==> AllReleased(levels[..k]) && levels[k] == RELEASED by {
        assert forall i :: 0 <= i < k ==> levels[..k][i] == levels[i];
      }
      if !AllReleased(levels[..k]) && k > 0 {
        assert levels[..k][k - 1] == levels[k - 1];
      }
    }
  }

  /** From power-up without a reset, what is latched is the level of two clock edges
      ago.  */
  lemma TwoClocks(levels: seq<Buttons>)
    ensures var s, n := LatchAfter(levels), |levels|;
            && s.reg == s.d == (if n >= 1 then levels[n - 1] else RELEASED)
            && s.q == if n >= 2 then levels[n - 2] else RELEASED
  {
    LatchIs(POWER_UP, levels);
    if levels != [] {
      LatchIs(POWER_UP, levels[..|levels| - 1]);
    }
  }

  /** A reset that rises and is held while the clock edges sample the levels
      `during`.  */
  function Held(s: Latch, during: seq<Buttons>): Latch {
    if during == [] then LatchReset(s)
    else LatchNext(Held(s, during[..|during| - 1]), during[|during| - 1], true)
  }

  lemma {:induction false} HeldIs(s: Latch, during: seq<Buttons>)
    ensures var t := Held(s, during);
            && t.reg == RELEASED && (t.d == RELEASED <==> s.d == RELEASED && AllReleased(during))
            && (AllReleased(during) ==> t.d == s.d)
  {
    if during != [] {
      var k := |during| - 1;
      HeldIs(s, during[..k]);
      assert AllReleased(during) <==> AllReleased(during[..k]) && during[k] == RELEASED by {
        assert forall i :: 0 <= i < k ==> during[..k][i] == during[i];
      }
    }
  }

  /** A reset does not reach the latch: it goes on showing a button that is released
      when the reset rises, or between two clock edges under it, and stays
      released.  */
  lemma StaleAfterReset(level: Buttons, during: seq<Buttons>, levels: seq<Buttons>)
    requires level != RELEASED && AllReleased(during) && AllReleased(levels) && |levels| >= 2
    ensures LatchFrom(Held(LatchAfter([level]), during), levels).q == level
  {
    TwoClocks([level]);
    var s := Held(LatchAfter([level]), during);
    HeldIs(LatchAfter([level]), during);
    LatchIs(s, levels);
    LatchIs(s, levels[..|levels| - 1]);
  }

  /** After a reset the latch is up to date exactly if a button has been held since,
      or none was latched before and none held at a clock edge under the reset.  */
  lemma {:induction false} FreshAfterReset(s: Latch, during: seq<Buttons>, levels: seq<Buttons>)
    requires levels != []
    ensures LatchFrom(Held(s, during), levels).d == levels[|levels| - 1] <==>
              !AllReleased(levels) || (s.d == RELEASED && AllReleased(during))
  {
    HeldIs(s, during);
    LatchIs(Held(s, during), levels);
  }

  // ------------------------------------------------------------------ port

  /** One clock of the bus.  */
  datatype Bus = Bus(addr: int, wr: bool, din: bool)

  /** q_addr, q_jp1_read_state (its lowest bit first) and q_strobe_state.  */
  datatype Port = Port(addr: int, read: seq<bool>, strobe: bool)

  function PortNext(s: Port, in_: Bus, q: Buttons): Port
    requires |s.read| == 9
  {
    var t := s.(addr := in_.addr);
    if in_.addr / 2 != PORT1 / 2 || in_.addr == s.addr || in_.addr % 2 == 1 then t
    else if in_.wr then
      if !s.strobe && in_.din then t.(strobe := true)
      else if s.strobe && !in_.din then t.(strobe := false, read := [false] + q)
      else t
    else t.(read := s.read[1..] + [true])
  }

  /** The lowest bit of dout during the clock.  */
  predicate Dout(s: Port, in_: Bus)
    requires |s.read| == 9
  {
    in_.addr == PORT1 && s.read[0]
  }

  /** The registers after the clocks `bus`, with `qs` the latched buttons during
      each.  */
  function PortAfter(bus: seq<Bus>, qs: seq<Buttons>): (s: Port)
    requires |bus| == |qs|
    ensures |s.read| == 9
  {
    if bus == [] then Port(0, RELEASED + [false], false)
    else PortNext(PortAfter(bus[..|bus| - 1], qs[..|qs| - 1]), bus[|bus| - 1], qs[|qs| - 1])
  }

  // What a program does is seen on the bus as accesses: an access lasts as long as
  // the address stays, and its first clock says whether it is a write.

  predicate Begins(bus: seq<Bus>, t: int)
    requires 0 <= t < |bus|
  {
    bus[t].addr == PORT1 && (t > 0 ==> bus[t - 1].addr != PORT1)
  }

  predicate WriteAt(bus: seq<Bus>, t: int)
    requires 0 <= t < |bus|
  {
    Begins(bus, t) && bus[t].wr
  }

  predicate ReadAt(bus: seq<Bus>, t: int)
    requires 0 <= t < |bus|
  {
    Begins(bus, t) && !bus[t].wr
  }

  /** What was last written to $4016 before clock t.  */
  function LastWritten(bus: seq<Bus>, t: nat): bool
    requires t <= |bus|
  {
    if t == 0 then false else if WriteAt(bus, t - 1) then bus[t - 1].din else LastWritten(bus, t - 1)
  }

  /** A 0 is written after a 1.  */
  predicate Reload(bus: seq<Bus>, t: nat)
    requires t < |bus|
  {
    WriteAt(bus, t) && !bus[t].din && LastWritten(bus, t)
  }

  /** How many reads begin from clock i to before clock j.  */
  function Reads(bus: seq<Bus>, i: nat, j: nat): nat
    requires i <= j <= |bus|
    decreases j
  {
    if i == j then 0 else Reads(bus, i, j - 1) + if ReadAt(bus, j - 1) then 1 else 0
  }

  lemma PortStep(bus: seq<Bus>, qs: seq<Buttons>, t: nat)
    requires |bus| == |qs| && t < |bus|
    ensures PortAfter(bus[..t + 1], qs[..t + 1]) == PortNext(PortAfter(bus[..t], qs[..t]), bus[t], qs[t])
  {
    assert bus[..t + 1][..t] == bus[..t] && qs[..t + 1][..t] == qs[..t];
  }

  lemma {:induction false} StrobeIs(bus: seq<Bus>, qs: seq<Buttons>, t: nat)
    requires |bus| == |qs| && t <= |bus|
    ensures var s := PortAfter(bus[..t], qs[..t]);
            s.strobe == LastWritten(bus, t) && s.addr == if t == 0 then 0 else bus[t - 1].addr
  {
    if t > 0 {
      StrobeIs(bus, qs, t - 1);
      PortStep(bus, qs, t - 1);
    }
  }

  /** The bit that the k-th read after a reload settles to, or that is there before
      any (k == 0).  */
  predicate BitOf(q: Buttons, k: nat) { if k == 0 then false else if k <= 8 then q[k - 1] else true }

  /** The shift register after a reload and k reads.  */
  predicate Shifted(read: seq<bool>, q: Buttons, k: nat) {
    |read| == 9 && forall i :: 0 <= i < 9 ==> read[i] == BitOf(q, i + k)
  }

  lemma ShiftOne(s: Port, in_: Bus, next: Buttons, q: Buttons, k: nat)
    requires Shifted(s.read, q, k)
    requires in_.addr == PORT1 && in_.addr != s.addr && in_.wr ==> !(s.strobe && !in_.din)
    ensures var read := in_.addr == PORT1 && in_.addr != s.addr && !in_.wr;
            Shifted(PortNext(s, in_, next).read, q, if read then k + 1 else k)
  {
    assert PORT1 / 2 == 0x200b;
  }

  /** The clock of a reload.  */
  lemma ReloadStep(bus: seq<Bus>, qs: seq<Buttons>, r: nat)
    requires |bus| == |qs| && r < |bus| && Reload(bus, r)
    ensures Shifted(PortAfter(bus[..r + 1], qs[..r + 1]).read, qs[r], 0)
  {
    StrobeIs(bus, qs, r);
    PortStep(bus, qs, r);
    assert PORT1 / 2 == 0x200b;
    hide PortAfter, LastWritten;
  }

  /** Any other clock.  */
  lemma OtherStep(bus: seq<Bus>, qs: seq<Buttons>, r: nat, u: nat)
    requires |bus| == |qs| && r < u < |bus| && !Reload(bus, u)
    requires Shifted(PortAfter(bus[..u], qs[..u]).read, qs[r], Reads(bus, r + 1, u))
    ensures Shifted(PortAfter(bus[..u + 1], qs[..u + 1]).read, qs[r], Reads(bus, r + 1, u + 1))
  {
    StrobeIs(bus, qs, u);
    PortStep(bus, qs, u);
    var k := Reads(bus, r + 1, u);
    assert Reads(bus, r + 1, u + 1) == k + if ReadAt(bus, u) then 1 else 0;
    hide Shifted, PortAfter, PortNext, LastWritten, Reads;
    ShiftOne(PortAfter(bus[..u], qs[..u]), bus[u], qs[u], qs[r], k);
  }

  /** After a 1 and then a 0 written to $4016, whatever else is on the bus and until
      the next such pair, the register has been shifted once for each read.  */
  lemma {:induction false} ShiftsOnly(bus: seq<Bus>, qs: seq<Buttons>, r: nat, t: nat)
    requires |bus| == |qs| && r < t <= |bus| && Reload(bus, r)
    requires forall u :: r < u < t ==> !Reload(bus, u)
    ensures Shifted(PortAfter(bus[..t], qs[..t]).read, qs[r], Reads(bus, r + 1, t))
    decreases t
  {
    hide Shifted, PortAfter, Reload;
    if t > r + 1 {
      ShiftsOnly(bus, qs, r, t - 1);
      OtherStep(bus, qs, r, t - 1);
    } else {
      ReloadStep(bus, qs, r);
    }
  }

  /** The k-th read of $4016 since then, once it lasts into a second clock, shows
      button k - 1 as it was captured, for k = 1 to 8, and 1 from the ninth read
      on.  */
  lemma ReadSettles(bus: seq<Bus>, qs: seq<Buttons>, r: nat, b: nat, t: nat)
    requires |bus| == |qs| && r < b < t < |bus| && Reload(bus, r)
    requires forall u :: r < u < t ==> !Reload(bus, u)
    requires ReadAt(bus, b) && forall u :: b <= u <= t ==> bus[u].addr == PORT1
    ensures var k := Reads(bus, r + 1, b + 1);
            && k >= 1
            && Dout(PortAfter(bus[..t], qs[..t]), bus[t]) == if k <= 8 then qs[r][k - 1] else true
  {
    ShiftsOnly(bus, qs, r, t);
    NoneWithin(bus, r + 1, b + 1, t);
  }

  lemma {:induction false} NoneWithin(bus: seq<Bus>, i: nat, b: nat, t: nat)
    requires 0 < i <= b <= t <= |bus| && forall u :: b - 1 <= u < t ==> bus[u].addr == PORT1
    ensures Reads(bus, i, t) == Reads(bus, i, b)
    decreases t
  {
    if b < t {
      NoneWithin(bus, i, b, t - 1);
    }
  }

  /** `qs` is what has been latched at the clock edges that sampled `levels`.  */
  ghost predicate Captured(s: Latch, levels: seq<Buttons>, qs: seq<Buttons>) {
    |qs| == |levels| && forall t :: 0 <= t < |qs| ==> qs[t] == LatchFrom(s, levels[..t]).q
  }

  /** The registers are what the histories say: `base` is the latch when the last
      reset ended and `levels` was sampled since; `bus` and `qs` is what was on the
      bus and in the latch at every clock edge since the last one under a reset, of
      which the `first`-th is the first one after the reset.  */
  ghost predicate Follows(l: Latch, p: Port, base: Latch, levels: seq<Buttons>, bus: seq<Bus>, qs: seq<Buttons>, first: nat) {
    && |bus| == |qs| == first + |levels| && base.reg == RELEASED
    && l == LatchFrom(base, levels) && p == PortAfter(bus, qs) && Captured(base, levels, qs[first..])
  }

  lemma FollowsNext(l: Latch, p: Port, base: Latch, levels: seq<Buttons>, bus: seq<Bus>, qs: seq<Buttons>, first: nat,
                    level: Buttons, in_: Bus)
    requires Follows(l, p, base, levels, bus, qs, first)
    ensures |bus| == |qs| && p == PortAfter(bus, qs) && l.reg == if |levels| > 0 then levels[|levels| - 1] else RELEASED
    ensures Follows(LatchNext(l, level, false), PortNext(p, in_, l.q), base, levels + [level], bus + [in_], qs + [l.q], first)
  {
    LatchIs(base, levels);
    LatchedNow(base, levels, level);
    CapturedMore(base, levels, qs[first..], level);
    PortedNow(bus, qs, in_, l.q);
    hide LatchFrom, PortAfter, LatchNext, PortNext, Captured;
    assert (qs + [l.q])[first..] == qs[first..] + [l.q];
  }

  lemma FollowsReset(l: Latch, level: Buttons)
    ensures Follows(LatchNext(l, level, true), Port(0, RELEASED + [false], false), LatchNext(l, level, true), [], [], [], 0)
  {
  }

  lemma FollowsRise(l: Latch, p: Port, base: Latch, levels: seq<Buttons>, bus: seq<Bus>, qs: seq<Buttons>, first: nat)
    requires Follows(l, p, base, levels, bus, qs, first)
    ensures Follows(LatchReset(l), p, LatchReset(l), [], bus, qs, |bus|)
  {
    assert qs[|bus|..] == [];
  }

  /** The registers as hardware has them.  */
  class Registers {
    var joypadReg: Buttons
    var dJp1State: Buttons
    var qJp1State: Buttons
    var qAddr: int
    var qJp1ReadState: seq<bool>
    var qStrobeState: bool
    ghost var base: Latch
    ghost var levels: seq<Buttons>
    ghost var bus: seq<Bus>
    ghost var qs: seq<Buttons>
    ghost var first: nat

    function State(): Latch
      reads this`joypadReg, this`dJp1State, this`qJp1State
    {
      Latch(joypadReg, dJp1State, qJp1State)
    }

    ghost predicate Valid()
      reads this
    {
      Follows(State(), Interface(), base, levels, bus, qs, first)
    }

    /** All registers power up at zero.  */
    constructor ()
      ensures Valid() && base == POWER_UP && levels == [] && bus == []
    {
      joypadReg, dJp1State, qJp1State := RELEASED, RELEASED, RELEASED;
      qAddr, qJp1ReadState, qStrobeState := 0, RELEASED + [false], false;
      base, levels, bus, qs, first := POWER_UP, [], [], [], 0;
    }

    /** The reset signal rises, between two clock edges.  */
    method Reset()
      requires Valid()
      modifies this`joypadReg, this`base, this`levels, this`first
      ensures Valid() && base == State() == LatchReset(old(State())) && levels == []
    {
      FollowsRise(State(), Interface(), base, levels, bus, qs, first);
      joypadReg := RELEASED;
      base, levels, first := State(), [], |bus|;
    }

    /** The flip-flops of the latch at a clock edge.  */
    method ClockLatch(level: Buttons, reset: bool) returns (strobe: bool)
      modifies this`joypadReg, this`dJp1State, this`qJp1State
      ensures State() == LatchNext(old(State()), level, reset)
      ensures strobe <==> level != if reset then RELEASED else old(joypadReg)
    {
      strobe := level != if reset then RELEASED else joypadReg;
      joypadReg, dJp1State, qJp1State :=
        if reset then RELEASED else level, if strobe then level else dJp1State, if reset then RELEASED else dJp1State;
    }

    function Interface(): Port
      reads this`qAddr, this`qJp1ReadState, this`qStrobeState
    {
      Port(qAddr, qJp1ReadState, qStrobeState)
    }

    /** Those of the bus interface, with `q` latched.  */
    method ClockPort(reset: bool, in_: Bus, q: Buttons) returns (dout: bool)
      requires |qJp1ReadState| == 9
      modifies this`qAddr, this`qJp1ReadState, this`qStrobeState
      ensures Interface() == if reset then Port(0, RELEASED + [false], false) else PortNext(old(Interface()), in_, q)
      ensures dout == Dout(old(Interface()), in_)
    {
      var addr := in_.addr;
      dout := addr == PORT1 && qJp1ReadState[0];
      var readNext, strobeNext := qJp1ReadState, qStrobeState;
      if addr / 2 == PORT1 / 2 && addr != qAddr {
        if in_.wr && addr % 2 == 0 {
          if !qStrobeState && in_.din {
            strobeNext := true;
          } else if qStrobeState && !in_.din {
            strobeNext := false;
            readNext := [false] + q;
          }
        } else if !in_.wr && addr % 2 == 0 {
          readNext := qJp1ReadState[1..] + [true];
        }
      }
      if reset {
        qAddr, qJp1ReadState, qStrobeState := 0, RELEASED + [false], false;
      } else {
        qAddr, qJp1ReadState, qStrobeState := addr, readNext, strobeNext;
      }
    }

    /** Keeps the histories up to date, after a clock edge at which the registers were
        `l` and `p`.  */
    ghost method Record(reset: bool, level: Buttons, in_: Bus, l: Latch, p: Port)
      requires Follows(l, p, base, levels, bus, qs, first) && |p.read| == 9
      requires State() == LatchNext(l, level, reset)
      requires Interface() == if reset then Port(0, RELEASED + [false], false) else PortNext(p, in_, l.q)
      modifies this`base, this`levels, this`bus, this`qs, this`first
      ensures Valid()
      ensures if reset then base == LatchNext(l, level, true) && levels == [] && bus == []
              else base == old(base) && first == old(first) && levels == old(levels) + [level] && bus == old(bus) + [in_]
    {
      hide Follows, PortNext, LatchNext, State, Interface;
      if reset {
        FollowsReset(l, level);
        base, levels, bus, qs, first := LatchNext(l, level, true), [], [], [], 0;
      } else {
        FollowsNext(l, p, base, levels, bus, qs, first, level, in_);
        levels, bus, qs := levels + [level], bus + [in_], qs + [l.q];
      }
    }

    lemma Latest()
      requires Valid()
      ensures |bus| == |qs| && Interface() == PortAfter(bus, qs)
      ensures State().reg == if |levels| > 0 then levels[|levels| - 1] else RELEASED
    {
      LatchIs(base, levels);
    }

    /** One clock; `dout` is what the bus sees during it.  */
    method Clock(reset: bool, level: Buttons, in_: Bus) returns (strobe: bool, dout: bool)
      requires Valid()
      modifies this
      ensures Valid()
      ensures if reset then base == LatchNext(old(State()), level, true) && levels == [] && bus == []
              else base == old(base) && first == old(first) && levels == old(levels) + [level] && bus == old(bus) + [in_]
      ensures strobe <==> level != if !reset && |old(levels)| > 0 then old(levels[|levels| - 1]) else RELEASED
      ensures |old(bus)| == |old(qs)| && dout == Dout(PortAfter(old(bus), old(qs)), in_)
    {
      Latest();
      ghost var l, p := State(), Interface();
      var q := qJp1State;
      hide Follows, PortAfter, LatchNext, PortNext, Dout, Valid;
      strobe := ClockLatch(level, reset);
      dout := ClockPort(reset, in_, q);
      Record(reset, level, in_, l, p);
    }
  }

  lemma LatchedNow(s: Latch, levels: seq<Buttons>, level: Buttons)
    ensures LatchFrom(s, levels + [level]) == LatchNext(LatchFrom(s, levels), level, false)
  {
    assert (levels + [level])[..|levels|] == levels;
  }

  lemma CapturedMore(s: Latch, levels: seq<Buttons>, qs: seq<Buttons>, level: Buttons)
    requires Captured(s, levels, qs)
    ensures Captured(s, levels + [level], qs + [LatchFrom(s, levels).q])
  {
    assert forall t :: 0 <= t <= |levels| ==> (levels + [level])[..t] == levels[..t];
    assert levels[..|levels|] == levels;
  }

  lemma PortedNow(bus: seq<Bus>, qs: seq<Buttons>, in_: Bus, q: Buttons)
    requires |bus| == |qs|
    ensures PortAfter(bus + [in_], qs + [q]) == PortNext(PortAfter(bus, qs), in_, q)
  {
    assert (bus + [in_])[..|bus|] == bus && (qs + [q])[..|qs|] == qs;
  }
}
