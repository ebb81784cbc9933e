/** The caller of the block driver and its processor side by side: two processes
    that share three longs and the hub memory, under every interleaving.  */
module SpiProtocol {
  import opened Arith
  import opened SpiCog

  /** Where the caller is: between calls, in front of the stores of the buffer
      address and of the request, or waiting.  `q` is the request, `n` the block,
      `at` the buffer; `before` is the hub memory when the request was stored.  */
  datatype Caller = Free | StoreBuffer(n: int, at: int, q: int) | StoreCommand(n: int, at: int, q: int)
                  | Waits(n: int, at: int, q: int, before: seq<int>)

  /** Where the driver is: in its loop, on a request, or finishing one that has
      been answered (RaNext and WbCard).  */
  datatype Pc = Time | Poll
              | RaIndex | RaPointer | RaCopy(k: int) | RaAnswer | RaNext
              | WbIndex | WbPointer | WbCopy(k: int) | WbAnswer | WbCard
              | ReCard | ReAnswer
              | TiSeconds | TiRest | TiAnswer

  /** The shared longs and the hub memory, in longs.  */
  datatype Hub = Hub(command: int, index: int, buffer: int, ram: seq<int>)

  /** `given` is the history: the data last given to writeblock for each block.  */
  datatype State = State(caller: Caller, hub: Hub, pc: Pc, ptr: int, core: Core, given: Blocks)

  predicate Inside(at: int, ram: seq<int>) { 0 <= at && at + 128 <= |ram| }

  function Buffer(ram: seq<int>, at: int): Sector
    requires Inside(at, ram)
  {
    ram[at..at + 128]
  }

  // ----------------------------------------------------------------- steps

  /** What a caller may choose to do between calls: to store anything anywhere in
      its memory, to call readblock or writeblock, or another entry.  */
  datatype Choice = Store(x: int, v: int) | CallBlock(q: int, n: int, at: int) | CallOther(q: int)

  /** One step of the caller.  */
  function CallerStep(s: State, choice: Choice): State {
    match s.caller
    case Free => (
      match choice
      case Store(x, v) => if 0 <= x < |s.hub.ram| then s.(hub := s.hub.(ram := s.hub.ram[x := v])) else s
      case CallBlock(q, n, at) =>
        if (q == CMD_R || q == CMD_W) && Inside(at, s.hub.ram) then
          s.(hub := s.hub.(index := n), caller := StoreBuffer(n, at, q))
        else s
      case CallOther(q) => if q == CMD_Z || q == CMD_T then s.(caller := StoreCommand(0, 0, q)) else s
    )
    case StoreBuffer(n, at, q) => s.(hub := s.hub.(buffer := at), caller := StoreCommand(n, at, q))
    case StoreCommand(n, at, q) =>
      s.(hub := s.hub.(command := q), caller := Waits(n, at, q, s.hub.ram),
         given := if q == CMD_W && Inside(at, s.hub.ram) then s.given[n := Buffer(s.hub.ram, at)] else s.given)
    case Waits(n, at, q, before) => if s.hub.command == q then s else s.(caller := Free)
  }

  /** What a step of the driver relies on: a card that has every block, and a copy
      inside the memory.  The invariant below says that it always holds.  */
  ghost predicate CogCan(s: State) {
    && s.core.Total()
    && (s.pc.RaCopy? || s.pc.WbCopy? ==> 0 <= s.pc.k < 128 && Inside(s.ptr, s.hub.ram))
  }

  /** One step of the driver.  What a processor does with the card between two
      accesses to the hub is one step.  */
  function CogStep(s: State, idle: bool, seconds: int, rest: int): State
    requires CogCan(s)
  {
    match s.pc
    case Time =>
      if idle then s.(pc := Poll, core := Handled(Release(s.core))) else s.(pc := Poll)
    case Poll =>
      if s.hub.command == CMD_R then s.(pc := RaIndex)
      else if s.hub.command == CMD_W then s.(pc := WbIndex)
      else if s.hub.command == CMD_Z then s.(pc := ReCard)
      else if s.hub.command == CMD_T then s.(pc := TiSeconds)
      else if s.hub.command > 0 then s.(pc := TiAnswer)
      else s.(pc := Time)
    case RaIndex => s.(pc := RaPointer, core := Loaded(s.core, s.hub.index))
    case RaPointer => s.(pc := RaCopy(0), ptr := s.hub.buffer)
    case RaCopy(k) =>
      LongInside(k);
      s.(pc := if k == 127 then RaAnswer else RaCopy(k + 1),
         hub := s.hub.(ram := s.hub.ram[s.ptr + LongAt(k) := s.core.buf[LongAt(k)]]))
    case RaAnswer => s.(pc := RaNext, hub := s.hub.(command := s.core.userCmd))
    case RaNext => s.(pc := Time, core := Handled(s.core.(userCmd := CMD_R, userIdx := s.core.userIdx + 1)))
    case WbIndex => s.(pc := WbPointer, core := s.core.(userIdx := s.hub.index))
    case WbPointer => s.(pc := WbCopy(0), ptr := s.hub.buffer)
    case WbCopy(k) =>
      LongInside(k);
      s.(pc := if k == 127 then WbAnswer else WbCopy(k + 1),
         core := s.core.(buf := s.core.buf[LongAt(k) := s.hub.ram[s.ptr + LongAt(k)]]))
    case WbAnswer => s.(pc := WbCard, hub := s.hub.(command := s.core.userCmd))
    case WbCard => s.(pc := Time, core := Handled(s.core.(userCmd := CMD_W)))
    case ReCard => s.(pc := ReAnswer, core := Handled(Release(s.core)))
    case ReAnswer => s.(pc := Time, hub := s.hub.(command := s.core.userCmd))
    case TiSeconds => s.(pc := TiRest, hub := s.hub.(index := seconds))
    case TiRest => s.(pc := TiAnswer, hub := s.hub.(buffer := rest))
    case TiAnswer => s.(pc := Time, hub := s.hub.(command := 0))
  }

  // ------------------------------------------------------------- invariant

  /** The request that the driver is working on, or 0.  */
  function Working(pc: Pc): int {
    match pc
    case RaIndex => CMD_R case RaPointer => CMD_R case RaCopy(_) => CMD_R case RaAnswer => CMD_R
    case WbIndex => CMD_W case WbPointer => CMD_W case WbCopy(_) => CMD_W case WbAnswer => CMD_W
    case ReCard => CMD_Z case ReAnswer => CMD_Z
    case TiSeconds => CMD_T case TiRest => CMD_T case TiAnswer => CMD_T
    case _ => 0
  }

  predicate IsRequest(q: int) { q == CMD_R || q == CMD_W || q == CMD_Z || q == CMD_T }

  /** The handshake: the driver works on a request only while its caller waits and
      the request stands.  */
  predicate Handshake(s: State) {
    && (!s.caller.Waits? ==> s.hub.command <= 0)
    && (s.caller.Waits? ==> IsRequest(s.caller.q) && (s.hub.command == s.caller.q || s.hub.command == 0))
    && (Working(s.pc) != 0 ==> s.caller.Waits? && s.caller.q == s.hub.command == Working(s.pc))
  }

  /** The parameters in the shared longs are those of the call.  */
  predicate Parameters(s: State) {
    match s.caller
    case Free => true
    case StoreBuffer(n, at, q) => (q == CMD_R || q == CMD_W) && s.hub.index == n && Inside(at, s.hub.ram)
    case StoreCommand(n, at, q) =>
      IsRequest(q) && (q == CMD_R || q == CMD_W ==> s.hub.index == n && s.hub.buffer == at && Inside(at, s.hub.ram))
    case Waits(n, at, q, before) =>
      && |before| == |s.hub.ram|
      && (q == CMD_R || q == CMD_W ==> Inside(at, s.hub.ram)
                                       && (s.hub.command == q ==> s.hub.index == n && s.hub.buffer == at))
  }

  /** The registers and the card.  */
  ghost predicate CardOk(s: State) {
    && s.core.Total() && s.core.Agrees() && s.core.userCmd == 0 && (forall n :: n in s.given)
    && (s.pc.RaCopy? || s.pc.WbCopy? ==> 0 <= s.pc.k < 128 && Inside(s.ptr, s.hub.ram))
    && (!(s.pc.WbCopy? || s.pc.WbAnswer? || s.pc.WbCard?) ==> s.core.Prefetched())
  }

  /** Only the buffer of the call differs from the memory before it.  */
  ghost predicate OnlyBuffer(before: seq<int>, ram: seq<int>, at: int) {
    |ram| == |before| && forall x :: 0 <= x < |ram| && !(at <= x < at + 128) ==> ram[x] == before[x]
  }

  ghost predicate Moved(a: Sector, ram: seq<int>, at: int, k: int)
    requires Inside(at, ram) && 0 <= k <= 128
  {
    forall j {:trigger LongAt(j)} :: 0 <= j < k ==> 0 <= LongAt(j) < 128 && ram[at + LongAt(j)] == a[LongAt(j)]
  }

  /** How far the driver is with a request.  */
  ghost predicate Work(s: State)
    requires Handshake(s) && Parameters(s) && CardOk(s)
  {
    var w, c := s.caller, s.core;
    && (s.pc.RaPointer? || s.pc.RaCopy? || s.pc.RaAnswer? ==>
          c.userIdx == w.n && c.lastCommand == CMD_R && c.lastIndexPlus == w.n + 1 && c.buf == c.blocks[w.n])
    && (s.pc.RaNext? ==> c.lastCommand == CMD_R && c.lastIndexPlus == c.userIdx + 1)
    && (s.pc.RaCopy? ==> s.ptr == w.at && OnlyBuffer(w.before, s.hub.ram, w.at) && Moved(c.buf, s.hub.ram, w.at, s.pc.k))
    && (s.pc.RaAnswer? ==> OnlyBuffer(w.before, s.hub.ram, w.at) && Buffer(s.hub.ram, w.at) == c.buf)
    && (s.pc.WbPointer? || s.pc.WbCopy? || s.pc.WbAnswer? ==> c.userIdx == w.n)
    && (s.pc.WbCopy? ==> s.ptr == w.at && Moved(c.buf, s.hub.ram, w.at, s.pc.k))
    && (s.pc.WbAnswer? ==> Buffer(s.hub.ram, w.at) == c.buf)
    && (s.pc.ReAnswer? ==> c.mode == Idle)
  }

  /** What the card holds once the driver has stored the block it is at.  */
  function OnCard(s: State): Blocks {
    if s.pc == WbCard then s.core.blocks[s.core.userIdx := s.core.buf] else s.core.blocks
  }

  /** The card holds what was given, but for a block that is under way.  */
  ghost predicate Data(s: State)
    requires Parameters(s)
  {
    if s.caller.Waits? && s.caller.q == CMD_W == s.hub.command then
      s.given == OnCard(s)[s.caller.n := Buffer(s.caller.before, s.caller.at)]
    else s.given == OnCard(s)
  }

  /** What the caller gets.  */
  ghost predicate Delivered(s: State)
    requires Handshake(s) && Parameters(s) && CardOk(s)
  {
    s.caller.Waits? ==>
      var n, at, q := s.caller.n, s.caller.at, s.caller.q;
      && (q != CMD_R || (s.hub.command == q && !s.pc.RaCopy? && !s.pc.RaAnswer?) ==> s.hub.ram == s.caller.before)
      && (q == CMD_R && s.hub.command == 0 ==>
            OnlyBuffer(s.caller.before, s.hub.ram, at) && Buffer(s.hub.ram, at) == s.given[n])
      && (q == CMD_Z && s.hub.command == 0 ==> s.core.mode == Idle && (s.pc == Time || s.pc == Poll))
  }

  ghost predicate Inv(s: State) {
    Handshake(s) && Parameters(s) && CardOk(s) && Work(s) && Data(s) && Delivered(s)
  }

  // ------------------------------------------------------------- its proof

  lemma MovedAll(a: Sector, ram: seq<int>, at: int)
    requires Inside(at, ram) && Moved(a, ram, at, 128)
    ensures Buffer(ram, at) == a
  {
    forall p | 0 <= p < 128
      ensures ram[at + p] == a[p]
    {
      LongsMoved(p);
    }
  }

  lemma MovedOut(a: Sector, ram: seq<int>, at: int, k: int)
    requires Inside(at, ram) && 0 <= k < 128 && Moved(a, ram, at, k) && 0 <= LongAt(k) < 128
    ensures Moved(a, ram[at + LongAt(k) := a[LongAt(k)]], at, k + 1)
  {
  }

  lemma MovedIn(a: Sector, ram: seq<int>, at: int, k: int)
    requires Inside(at, ram) && 0 <= k < 128 && Moved(a, ram, at, k) && 0 <= LongAt(k) < 128
    ensures Moved(a[LongAt(k) := ram[at + LongAt(k)]], ram, at, k + 1)
  {
    var a' := a[LongAt(k) := ram[at + LongAt(k)]];
    forall j {:trigger LongAt(j)} | 0 <= j < k + 1
      ensures 0 <= LongAt(j) < 128 && ram[at + LongAt(j)] == a'[LongAt(j)]
    {
      LongInside(j);
    }
  }

  lemma CallerKeeps(s: State, choice: Choice)
    requires Inv(s)
    ensures Inv(CallerStep(s, choice))
  {
    hide Moved, LongAt;
  }

  lemma CopyOutKeeps(s: State, idle: bool, seconds: int, rest: int)
    requires Inv(s) && s.pc.RaCopy?
    ensures Inv(CogStep(s, idle, seconds, rest))
  {
    var s' := CogStep(s, idle, seconds, rest);
    LongInside(s.pc.k);
    MovedOut(s.core.buf, s.hub.ram, s.ptr, s.pc.k);
    if s.pc.k == 127 {
      MovedAll(s.core.buf, s'.hub.ram, s.ptr);
    }
    hide Moved, LongAt;
  }

  lemma CopyInKeeps(s: State, idle: bool, seconds: int, rest: int)
    requires Inv(s) && s.pc.WbCopy?
    ensures Inv(CogStep(s, idle, seconds, rest))
  {
    var s' := CogStep(s, idle, seconds, rest);
    LongInside(s.pc.k);
    MovedIn(s.core.buf, s.hub.ram, s.ptr, s.pc.k);
    if s.pc.k == 127 {
      MovedAll(s'.core.buf, s.hub.ram, s.ptr);
    }
    hide Moved, LongAt;
  }

  lemma ReadKeeps(s: State, idle: bool, seconds: int, rest: int)
    requires Inv(s) && (s.pc.RaIndex? || s.pc.RaPointer? || s.pc.RaAnswer? || s.pc.RaNext?)
    ensures Inv(CogStep(s, idle, seconds, rest))
  {
    if s.pc.RaIndex? {
      LoadedBlock(s.core, s.hub.index);
    }
    hide LongAt;
  }

  lemma WriteKeeps(s: State, idle: bool, seconds: int, rest: int)
    requires Inv(s) && (s.pc.WbIndex? || s.pc.WbPointer? || s.pc.WbAnswer? || s.pc.WbCard?)
    ensures Inv(CogStep(s, idle, seconds, rest))
  {
    hide LongAt;
  }

  lemma CogKeeps(s: State, idle: bool, seconds: int, rest: int)
    requires Inv(s)
    ensures Inv(CogStep(s, idle, seconds, rest))
  {
    if s.pc.RaCopy? {
      CopyOutKeeps(s, idle, seconds, rest);
    } else if s.pc.WbCopy? {
      CopyInKeeps(s, idle, seconds, rest);
    } else if Working(s.pc) == CMD_R || s.pc.RaNext? {
      ReadKeeps(s, idle, seconds, rest);
    } else if Working(s.pc) == CMD_W || s.pc.WbCard? {
      WriteKeeps(s, idle, seconds, rest);
    } else {
      hide LongAt, Moved;
    }
  }

  // ------------------------------------------------------------------ runs

  datatype Event = CallerMoves(choice: Choice) | CogMoves(idle: bool, seconds: int, rest: int)

  ghost function Step(s: State, e: Event): State {
    match e
    case CallerMoves(choice) => CallerStep(s, choice)
    case CogMoves(idle, seconds, rest) => if CogCan(s) then CogStep(s, idle, seconds, rest) else s
  }

  /** The state after any interleaving of steps.  */
  ghost function Run(s: State, events: seq<Event>): State {
    if events == [] then s else Step(Run(s, events[..|events| - 1]), events[|events| - 1])
  }

  /** The driver has just been started: what stands for the request is its answer to
      that, which is -1, or a 0.  */
  ghost predicate Starts(s: State) {
    && s.caller == Free && s.hub.command <= 0 && s.pc == Time
    && s.core.userCmd == 0 && s.core.lastCommand == 0 && s.core.lastIndexPlus == -1 && s.core.mode == Idle
    && s.core.Total() && s.given == s.core.blocks
  }

  lemma {:induction false} RunKeeps(s: State, events: seq<Event>)
    requires Starts(s) || Inv(s)
    ensures Inv(Run(s, events))
  {
    if events != [] {
      var k := |events| - 1;
      RunKeeps(s, events[..k]);
      hide Inv;
      match events[k]
      case CallerMoves(choice) => CallerKeeps(Run(s, events[..k]), choice);
      case CogMoves(idle, seconds, rest) => CogKeeps(Run(s, events[..k]), idle, seconds, rest);
    }
  }

  /** Whatever the two processes did before, a call that returns is answered with
      0.  readblock has filled its buffer with the data last given to writeblock
      for that block, and touched nothing else; after a release the card is in no
      multi-block mode.  */
  lemma Returns(s: State, events: seq<Event>)
    requires Starts(s)
    ensures var t := Run(s, events);
            t.caller.Waits? && t.hub.command != t.caller.q ==>
              var w := t.caller;
              && t.hub.command == 0
              && (w.q == CMD_R ==> Inside(w.at, t.hub.ram) && w.n in t.given && Buffer(t.hub.ram, w.at) == t.given[w.n]
                                   && OnlyBuffer(w.before, t.hub.ram, w.at))
              && (w.q != CMD_R ==> t.hub.ram == w.before)
              && (w.q == CMD_Z ==> t.core.mode == Idle)
  {
    RunKeeps(s, events);
  }

  /** What was given to writeblock for block n, read off the run.  */
  ghost function LastGiven(s: State, events: seq<Event>, n: int): Sector
    requires n in s.given
  {
    if events == [] then s.given[n]
    else
      var k := |events| - 1;
      var t := Run(s, events[..k]);
      if events[k].CallerMoves? && t.caller.StoreCommand? && t.caller.q == CMD_W && t.caller.n == n && Inside(t.caller.at, t.hub.ram)
      then Buffer(t.hub.ram, t.caller.at)
      else LastGiven(s, events[..k], n)
  }

  lemma {:induction false} GivenIs(s: State, events: seq<Event>, n: int)
    requires n in s.given
    ensures n in Run(s, events).given && Run(s, events).given[n] == LastGiven(s, events, n)
  {
    if events != [] {
      GivenIs(s, events[..|events| - 1], n);
      hide Inv;
    }
  }

  /** Outside of a call the driver neither changes a shared long or the memory, nor
      depends on them but for the request; and it touches the parameters and the
      buffer only while the request stands and its caller waits.  */
  lemma Apart(s: State, events: seq<Event>, idle: bool, seconds: int, rest: int, hub: Hub)
    requires Starts(s)
    ensures var t := Run(s, events);
            && CogCan(t)
            && (!t.caller.Waits? || t.hub.command != t.caller.q ==>
                  Working(t.pc) == 0 && CogStep(t, idle, seconds, rest).hub == t.hub)
            && (Working(t.pc) == 0 && hub.command == t.hub.command ==>
                  CogStep(t.(hub := hub), idle, seconds, rest) == CogStep(t, idle, seconds, rest).(hub := hub))
            && (Working(t.pc) != 0 ==> t.caller.Waits? && t.hub.command == t.caller.q == Working(t.pc))
  {
    RunKeeps(s, events);
    hide LongAt, Moved, Handled;
  }

  /** How many steps of the driver it takes at most until a call is answered.  */
  function Rank(pc: Pc): nat {
    match pc
    case TiAnswer => 1 case TiRest => 2 case TiSeconds => 3
    case ReAnswer => 1 case ReCard => 2
    case RaAnswer => 1 case RaCopy(k) => if k <= 127 then 129 - k else 0 case RaPointer => 130 case RaIndex => 131
    case WbAnswer => 1 case WbCopy(k) => if k <= 127 then 129 - k else 0 case WbPointer => 130 case WbIndex => 131
    case Poll => 132
    case Time => 133
    case RaNext => 134 case WbCard => 134
  }

  lemma RankFalls(s: State, e: Event)
    requires Inv(s) && s.caller.Waits? && s.hub.command == s.caller.q
    ensures var s' := Step(s, e);
            && s'.caller == s.caller
            && (e.CallerMoves? ==> s' == s)
            && (e.CogMoves? ==> s'.hub.command == 0 || (s'.hub.command == s.hub.command && Rank(s'.pc) < Rank(s.pc)))
  {
    hide LongAt, Moved, Handled, Loaded;
  }

  function CogSteps(events: seq<Event>): nat {
    if events == [] then 0 else CogSteps(events[1..]) + if events[0].CogMoves? then 1 else 0
  }

  /** A call is answered within 134 steps of the driver.  */
  lemma {:induction false} Answered(s: State, events: seq<Event>) returns (k: nat)
    requires Inv(s) && s.caller.Waits? && CogSteps(events) >= Rank(s.pc)
    ensures k <= |events| && Run(s, events[..k]).hub.command == 0 && Run(s, events[..k]).caller == s.caller
    decreases |events|
  {
    k := 0;
    if s.hub.command != 0 {
      RankPositive(s);
      var e, s' := events[0], Step(s, events[0]);
      RankFalls(s, e);
      RunKeeps(s, [e]);
      assert [e][..0] == [] && Run(s, []) == s && Run(s, [e]) == s';
      hide Inv, Step;
      if s'.hub.command == 0 {
        k := 1;
        assert events[..1] == [e];
      } else {
        var j := Answered(s', events[1..]);
        k := j + 1;
        assert events[..k] == [e] + events[1..][..j];
        RunSplit(s, e, events[1..][..j]);
      }
    }
  }

  lemma RankPositive(s: State)
    requires Inv(s) && s.caller.Waits? && s.hub.command != 0
    ensures Rank(s.pc) > 0 && s.hub.command == s.caller.q
  {
    hide LongAt, Moved, Handled, Loaded;
  }

  lemma {:induction false} RunSplit(s: State, e: Event, events: seq<Event>)
    ensures Run(s, [e] + events) == Run(Step(s, e), events)
    decreases |events|
  {
    var all := [e] + events;
    if events == [] {
      assert all == [e] && [e][..0] == [];
    } else {
      var k := |events| - 1;
      RunSplit(s, e, events[..k]);
      assert all[..k + 1] == [e] + events[..k];
    }
    hide Step;
  }
}
