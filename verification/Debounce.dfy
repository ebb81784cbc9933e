/** The button debouncer: four states and an N-bit down counter.  */
module Debounce {
  import opened Arith

  datatype Phase = Zero | Wait1 | One | Wait0

  datatype Deb = Deb(state: Phase, q: int) {
    /** The output db_level.  */
    predicate Level() { state == One || state == Wait0 }
  }

  /** The registers after a clock edge at which `sw` is sampled.  The counter has N
      bits and wraps.  */
  function Next(n: nat, d: Deb, sw: bool): Deb {
    var full, down := Pow2(n) - 1, if d.q == 0 then Pow2(n) - 1 else d.q - 1;
    match d.state
    case Zero => if sw then Deb(Wait1, full) else d
    case Wait1 => if sw then Deb(if down == 0 then One else Wait1, down) else Deb(Zero, d.q)
    case One => if !sw then Deb(Wait0, full) else d
    case Wait0 => if !sw then Deb(if down == 0 then Zero else Wait0, down) else Deb(One, d.q)
  }

  /** The output db_tick before that edge.  */
  predicate Tick(d: Deb, sw: bool) { d.state == Wait1 && sw && d.q == 1 }

  /** The registers after the clock edges that sampled `ins`, from the zero state
      on.  */
  function After(n: nat, ins: seq<bool>): Deb {
    if ins == [] then Deb(Zero, 0) else Next(n, After(n, ins[..|ins| - 1]), ins[|ins| - 1])
  }

  /** On how many of the latest clock edges, one after the other, `b` has been
      sampled.  */
  function Streak(ins: seq<bool>, b: bool): (k: nat)
    ensures k <= |ins|
  {
    if ins == [] || ins[|ins| - 1] != b then 0 else 1 + Streak(ins[..|ins| - 1], b)
  }

  lemma {:induction false} StreakIs(ins: seq<bool>, b: bool, k: nat)
    ensures Streak(ins, b) >= k <==> k <= |ins| && forall i :: |ins| - k <= i < |ins| ==> ins[i] == b
  {
    if k > 0 && ins != [] && ins[|ins| - 1] == b {
      StreakIs(ins[..|ins| - 1], b, k - 1);
    }
  }

  /** The counter counts the streak of samples that contradict the level.  */
  lemma {:induction false} Counts(n: nat, ins: seq<bool>)
    requires n >= 1
    ensures var d := After(n, ins);
            var c := Streak(ins, !d.Level());
            && Pow2(n) >= 2 && 0 <= d.q < Pow2(n) && c < Pow2(n)
            && (d.state == Zero || d.state == One ==> c == 0)
            && (d.state == Wait0 || d.state == Wait1 ==> c >= 1 && d.q == Pow2(n) - c)
  {
    assert Pow2(n) == 2 * Pow2(n - 1);
    if ins != [] {
      Counts(n, ins[..|ins| - 1]);
    }
  }

  /** The level flips at exactly those clock edges that complete 2^N samples in a
      row that contradict it, and db_tick is high before exactly those at which it
      flips from 0 to 1.  */
  lemma Flips(n: nat, ins: seq<bool>, sw: bool)
    requires n >= 1
    ensures var d, d' := After(n, ins), After(n, ins + [sw]);
            && (d'.Level() != d.Level() <==>
                  Pow2(n) <= |ins| + 1
                  && forall i :: |ins| + 1 - Pow2(n) <= i < |ins| + 1 ==> (ins + [sw])[i] == !d.Level())
            && (Tick(d, sw) <==> !d.Level() && d'.Level())
  {
    Counts(n, ins);
    var all := ins + [sw];
    assert all[..|ins|] == ins;
    StreakIs(all, !After(n, ins).Level(), Pow2(n));
  }

  /** How often the level went from 0 to 1, and how often db_tick was high.  */
  function Rises(n: nat, ins: seq<bool>): nat {
    if ins == [] then 0
    else
      var was := ins[..|ins| - 1];
      Rises(n, was) + if !After(n, was).Level() && After(n, ins).Level() then 1 else 0
  }

  function Ticks(n: nat, ins: seq<bool>): nat {
    if ins == [] then 0
    else
      var was := ins[..|ins| - 1];
      Ticks(n, was) + if Tick(After(n, was), ins[|ins| - 1]) then 1 else 0
  }

  lemma {:induction false} OneTickPerRise(n: nat, ins: seq<bool>)
    requires n >= 1
    ensures Ticks(n, ins) == Rises(n, ins)
  {
    if ins != [] {
      var k := |ins| - 1;
      OneTickPerRise(n, ins[..k]);
      Flips(n, ins[..k], ins[k]);
      assert ins[..k] + [ins[k]] == ins;
    }
  }

  lemma CountDown(q: int, m: int)
    requires 0 <= q < m
    ensures (q - 1) % m == if q == 0 then m - 1 else q - 1
  {
    if q == 0 {
      DivMod(-1, m, m - 1);
    } else {
      DivMod(0, m, q - 1);
    }
  }

  lemma StartsZero(n: nat)
    ensures After(n, []) == Deb(Zero, 0)
  {
  }

  /** The registers as hardware has them.  */
  class Unit {
    const n: nat
    var stateReg: Phase
    var qReg: int
    ghost var samples: seq<bool>

    ghost predicate Valid()
      reads this
    {
      n >= 1 && Deb(stateReg, qReg) == After(n, samples)
    }

    constructor (n: nat)
      requires n >= 1
      ensures Valid() && samples == [] && this.n == n
    {
      this.n := n;
      stateReg, qReg, samples := Zero, 0, [];
    }

    function Level(): bool
      reads this
    {
      stateReg == One || stateReg == Wait0
    }

    /** The reset signal rises: the registers are cleared at once, not at the next
        clock edge.  */
    method Reset()
      requires n >= 1
      modifies this
      ensures Valid() && samples == [] && !Level()
    {
      StartsZero(n);
      stateReg, qReg, samples := Zero, 0, [];
    }

    /** One clock edge; while the reset is held it changes nothing more.  */
    method Clock(reset: bool, sw: bool) returns (tick: bool)
      requires Valid()
      modifies this
      ensures Valid() && samples == if reset then [] else old(samples) + [sw]
      ensures reset ==> !tick && !Level()
      ensures !reset ==>
                && (tick <==> !old(Level()) && Level())
                && (Level() != old(Level()) <==>
                      Pow2(n) <= |samples| && forall i :: |samples| - Pow2(n) <= i < |samples| ==> samples[i] == !old(Level()))
    {
      tick := false;
      if reset {
        Reset();
        return;
      }
      var stateNext, qNext := stateReg, qReg;
      ghost var was := Deb(stateReg, qReg);
      Counts(n, samples);
      CountDown(qReg, Pow2(n));
      assert After(n, samples + [sw]) == Next(n, was, sw) && Tick(was, sw) == (stateReg == Wait1 && sw && qReg == 1) by {
        assert (samples + [sw])[..|samples|] == samples;
      }
      Flips(n, samples, sw);
      hide After, Streak, Pow2;
      match stateReg {
        case Zero =>
          if sw {
            stateNext := Wait1;
            qNext := Pow2(n) - 1;
          }
        case Wait1 =>
          if sw {
            qNext := (qReg - 1) % Pow2(n);
            if qNext == 0 {
              stateNext := One;
              tick := true;
            }
          } else {
            stateNext := Zero;
          }
        case One =>
          if !sw {
            stateNext := Wait0;
            qNext := Pow2(n) - 1;
          }
        case Wait0 =>
          if !sw {
            qNext := (qReg - 1) % Pow2(n);
            if qNext == 0 {
              stateNext := Zero;
            }
          } else {
            stateNext := One;
          }
      }
      assert Deb(stateNext, qNext) == Next(n, was, sw) && (tick <==> Tick(was, sw));
      stateReg, qReg, samples := stateNext, qNext, samples + [sw];
    }
  }
}
