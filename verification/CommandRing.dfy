/** The xHCI command ring.  Three producers write commands into all slots but the
    last; the last holds a Link TRB written once, at initialisation. */
module CommandRing {
  import opened Bytes
  import opened RingArithmetic
  import opened Trbs

  const LINK := 6
  const NO_OP_COMMAND := 23
  const TRB_SIZE := 16

  /** The three producers and their arguments. */
  datatype Command =
    | Noop
    | Plain(trbType: nat, parameter: nat, status: nat)
    | Slotted(trbType: nat, parameter: nat, status: nat, slotId: nat)

  function TypeOf(c: Command): nat {
    if c.Noop? then NO_OP_COMMAND else c.trbType
  }

  /** Slot identifiers are bytes; a Link is not a command. */
  predicate IsCommand(c: Command) {
    TypeOf(c) % 64 != LINK && (c.Slotted? ==> c.slotId < 256)
  }

  /** The bit fields of the control word do not overlap, so the ORs are sums. */
  function Control(trbType: nat, cycle: bool): nat {
    trbType % 64 * 1024 + 32 + Bit(cycle)
  }

  function Encode(c: Command, cycle: bool): Trb {
    match c
    case Noop => Trb(0, 0, Control(NO_OP_COMMAND, cycle))
    case Plain(ty, p, st) => Trb(p, st, Control(ty, cycle))
    case Slotted(ty, p, st, id) => Trb(p, st, Control(ty, cycle) + id * 65536)
  }

  /** Bit 5 of the control word: interrupt on completion. */
  predicate Interrupts(t: Trb) {
    (t.control / 32) % 2 == 1
  }

  /** The eight bits from 16 on, where the driver puts the slot. */
  function SlotBits(t: Trb): nat {
    (t.control / 0x1_0000) % 0x100
  }

  /** What a TRB asks of the controller, read from its three words: the command's type,
      parameter, status and slot; a no-op has parameter, status and slot 0. */
  predicate Carries(t: Trb, c: Command) {
    && TrbType(t) == TypeOf(c) % 64 && Interrupts(t)
    && t.parameter == (if c.Noop? then 0 else c.parameter)
    && t.status == (if c.Noop? then 0 else c.status)
    && SlotBits(t) == (if c.Slotted? then c.slotId else 0)
  }

  /** An encoded command carries that command and the producer's cycle bit, and no other bit
      of the control word is set. */
  lemma EncodeFields(c: Command, cycle: bool)
    requires c.Slotted? ==> c.slotId < 256
    ensures var t := Encode(c, cycle);
      && Carries(t, c) && Cycle(t) == cycle
      && t.control == Bit(cycle) + 32 + TrbType(t) * 1024 + SlotBits(t) * 0x1_0000 < 0x100_0000
  {
    var ty, id, t := TypeOf(c) % 64, if c.Slotted? then c.slotId else 0, Encode(c, cycle);
    var low := ty * 1024 + 32 + Bit(cycle);
    assert t.control == id * 65536 + low;
    DivModUnique(t.control, 65536, id, low);
    DivModUnique(t.control, 1024, id * 64 + ty, 32 + Bit(cycle));
    DivModUnique(id * 64 + ty, 64, id, ty);
    DivModUnique(t.control, 2, id * 32768 + ty * 512 + 16, Bit(cycle));
    DivModUnique(t.control, 32, id * 2048 + ty * 32 + 1, Bit(cycle));
    DivModUnique(id * 2048 + ty * 32 + 1, 2, id * 1024 + ty * 16, 1);
  }

  /** Where section 6.4.3 of the xHCI specification has the slot: the top byte. */
  function SlotField(t: Trb): nat {
    t.control / 0x100_0000
  }

  /** The controller reads the slot the driver meant if and only if that is slot 0: the
      driver shifts it by 16, not by 24. */
  lemma SlotFieldIsMissed(c: Command, cycle: bool)
    requires c.Slotted? && c.slotId < 256
    ensures SlotField(Encode(c, cycle)) == c.slotId <==> c.slotId == 0
  {
    EncodeFields(c, cycle);
    var t := Encode(c, cycle);
    DivModUnique(t.control, 0x100_0000, 0, t.control);
  }

  /** `init_link_trb` with toggle: points back at the ring, cycle bit 1, toggle bit 1. */
  function Link(base: nat): (t: Trb)
    ensures Cycle(t) && TrbType(t) == LINK && Toggles(t)
  {
    Trb(base, 0, LINK * 1024 + 1 + 2)
  }

  predicate Toggles(t: Trb) {
    (t.control / 2) % 2 == 1
  }

  // ---- the step system ----

  datatype Sys = Sys(
    slots: seq<Trb>, base: nat, enqueue: nat, cycle: bool,   // producer
    index: nat, ccs: bool,                                   // controller's dequeue side
    sent: seq<Trb>, received: seq<Trb>)                      // histories

  datatype Action = Enqueue(command: Command) | Fetch

  predicate Shape(s: Sys) {
    2 <= |s.slots| && s.index < |s.slots|
  }

  function Usable(s: Sys): int {
    |s.slots| - 1
  }

  function Init(n: nat, base: nat): Sys {
    Sys(if n == 0 then [] else seq(n - 1, _ => ZERO) + [Link(base)], base, 0, true, 0, true, [], [])
  }

  /** All three producers; a ring without a usable slot is left alone. */
  function Put(s: Sys, c: Command): Sys {
    var usable := Usable(s);
    if usable <= 0 then s
    else
      var t := Encode(c, s.cycle);
      var next := (s.enqueue + 1) % usable;
      s.(slots := s.slots[s.enqueue % usable := t], enqueue := next,
         cycle := if next == 0 then !s.cycle else s.cycle, sent := s.sent + [t])
  }

  /** A consumer under sections 4.9.3 and 4.11.5.1 of the xHCI specification: it stops
      at a TRB whose cycle bit is not its own, follows a Link to the slot its pointer names
      (flipping its cycle state when the Link says so; a pointer out of the ring is not
      followed), and takes anything else. */
  function FetchStep(s: Sys): Sys
    requires Shape(s)
  {
    var t := s.slots[s.index];
    if Cycle(t) != s.ccs then s
    else if TrbType(t) == LINK then
      var target := (t.parameter - s.base) / TRB_SIZE;
      if 0 <= target < |s.slots| then s.(index := target, ccs := if Toggles(t) then !s.ccs else s.ccs) else s
    else if s.index + 1 == |s.slots| then s
    else s.(index := s.index + 1, received := s.received + [t])
  }

  function Next(s: Sys, a: Action): (r: Sys)
    requires Shape(s)
    ensures Shape(r) && |r.slots| == |s.slots|
  {
    match a
    case Enqueue(c) => Put(s, c)
    case Fetch => FetchStep(s)
  }

  function Run(s: Sys, actions: seq<Action>): (r: Sys)
    requires Shape(s)
    ensures Shape(r) && |r.slots| == |s.slots|
    decreases |actions|
  {
    if actions == [] then s else Run(Next(s, actions[0]), actions[1..])
  }

  predicate Commands(actions: seq<Action>) {
    forall i :: 0 <= i < |actions| && actions[i].Enqueue? ==> IsCommand(actions[i].command)
  }

  // ---- what every run of the producers keeps ----

  ghost predicate ProducerInv(s: Sys) {
    var u, k := Usable(s), |s.sent|;
    && Shape(s)
    && s.enqueue == k % u && s.cycle == LapCycle(k, u)
    && s.slots[u] == Link(s.base)
    && RingHolds(s.slots[..u], s.sent)
    && (forall i :: 0 <= i < k ==> TrbType(s.sent[i]) != LINK)
  }

  lemma InitProducerInv(n: nat, base: nat)
    requires n >= 2
    ensures ProducerInv(Init(n, base))
  {
    FirstLap(0, n - 1);
    assert Init(n, base).slots[..n - 1] == seq(n - 1, _ => ZERO);
  }

  lemma PutKeeps(s: Sys, c: Command)
    requires ProducerInv(s) && IsCommand(c)
    ensures ProducerInv(Put(s, c))
  {
    hide RingHolds, Encode, TrbType, Cycle, LapCycle, Link;
    var u, k, t := Usable(s), |s.sent|, Encode(c, s.cycle);
    EncodeFields(c, s.cycle);
    Advance(k, u);
    DivModUnique(s.enqueue, u, 0, s.enqueue);
    RingGrows(s.slots[..u], s.sent, t);
    assert Put(s, c).slots[..u] == s.slots[..u][k % u := t];
  }

  lemma NextKeepsProducer(s: Sys, a: Action)
    requires ProducerInv(s) && (a.Enqueue? ==> IsCommand(a.command))
    ensures ProducerInv(Next(s, a))
  {
    if a.Enqueue? { PutKeeps(s, a.command); }
  }

  /** Whatever mix of the producers runs, overrun or not: the last slot always holds the
      original Link, the producer's cycle is the parity of its lap, and each slot holds
      the newest command written to it with that command's lap bit. */
  lemma {:induction false} ProducersKeepRing(s: Sys, actions: seq<Action>)
    requires ProducerInv(s) && Commands(actions)
    ensures ProducerInv(Run(s, actions))
    decreases |actions|
  {
    if actions != [] {
      NextKeepsProducer(s, actions[0]);
      ProducersKeepRing(Next(s, actions[0]), actions[1..]);
    }
  }

  // ---- the consumer's side, in any run ----

  /** During lap 0 the controller's cycle state is 1, during lap 1 it is 0, and there is
      no lap 2: the Link's cycle bit is still 1.  This holds however far the producers have
      run ahead. */
  ghost predicate PosInv(s: Sys) {
    var u, k, r := Usable(s), |s.sent|, |s.received|;
    && ProducerInv(s)
    && r <= k
    && ((s.ccs && r <= u && s.index == r) || (!s.ccs && u <= r <= 2 * u && s.index == r - u))
  }

  /** How many times the slot of the next command to fetch has been overwritten since. */
  function Overwrites(s: Sys): nat
    requires Shape(s) && |s.received| < |s.sent|
  {
    (|s.sent| - 1 - |s.received|) / Usable(s)
  }

  /** The command that slot holds now. */
  function Newest(s: Sys): nat
    requires Shape(s) && |s.received| < |s.sent|
  {
    |s.received| + Overwrites(s) * Usable(s)
  }

  lemma NewestInWindow(s: Sys)
    requires PosInv(s) && |s.received| < |s.sent| && s.index < Usable(s)
    ensures var u, j := Usable(s), Newest(s);
      && j < |s.sent| <= j + u && j % u == s.index
      && (LapCycle(j, u) == s.ccs <==> Overwrites(s) % 2 == 0)
  {
    hide ProducerInv;
    var u, q, j, lap := Usable(s), Overwrites(s), Newest(s), if s.ccs then 0 else 1;
    assert u > 0;
    assert j == (lap + q) * u + s.index;
    DivModUnique(j, u, lap + q, s.index);
  }

  /** What the controller finds in the slot it looks at: the newest command written there,
      which it takes for its own lap's if and only if the slot was overwritten an even
      number of times; with nothing outstanding it finds nothing. */
  lemma Found(s: Sys)
    requires PosInv(s) && s.index < Usable(s)
    ensures var t := s.slots[s.index];
      if |s.received| == |s.sent| then Cycle(t) != s.ccs
      else
        && Newest(s) < |s.sent| && t == s.sent[Newest(s)] && TrbType(t) != LINK
        && (Cycle(t) == s.ccs <==> Overwrites(s) % 2 == 0)
  {
    hide TrbType, LapCycle;
    var u, k, r := Usable(s), |s.sent|, |s.received|;
    if r < k {
      NewestInWindow(s);
      var j := Newest(s);
      assert s.slots[..u][j % u] == s.sent[j];
    } else {
      LapOf(s);
      UntouchedSlot(s.slots[..u], s.sent);
    }
  }

  lemma LapOf(s: Sys)
    requires PosInv(s) && s.index < Usable(s)
    ensures |s.received| % Usable(s) == s.index && LapCycle(|s.received|, Usable(s)) == s.ccs
  {
    hide ProducerInv;
    DivModUnique(|s.received|, Usable(s), if s.ccs then 0 else 1, s.index);
  }

  /** The controller would take something here. */
  predicate Takes(s: Sys)
    requires Shape(s)
  {
    s.index < Usable(s) && |s.received| < |s.sent| && Overwrites(s) % 2 == 0
  }

  /** A fetch in any state of any run: it takes the newest command of its slot or nothing,
      or follows the Link into the second lap. */
  lemma FetchOutcome(s: Sys)
    requires PosInv(s)
    ensures var s' := FetchStep(s);
      && s'.sent == s.sent && Usable(s') == Usable(s)
      && (Takes(s) ==>
            && Newest(s) < |s.sent|
            && s' == s.(index := s.index + 1, received := s.received + [s.sent[Newest(s)]]))
      && (!Takes(s) ==> s' == if s.index == Usable(s) && s.ccs then s.(index := 0, ccs := false) else s)
  {
    hide Cycle, TrbType, RingHolds, LapCycle, Overwrites, Toggles;
    if s.index < Usable(s) { Found(s); } else { LinkFields(s.base); }
  }

  lemma LinkFields(base: nat)
    ensures Cycle(Link(base)) && TrbType(Link(base)) == LINK && Toggles(Link(base))
    ensures (Link(base).parameter - base) / TRB_SIZE == 0
  {
  }

  lemma FetchKeepsPos(s: Sys)
    requires PosInv(s)
    ensures PosInv(FetchStep(s))
  {
    FetchOutcome(s);
    hide FetchStep, RingHolds, Overwrites, TrbType, LapCycle;
  }

  lemma NextKeepsPos(s: Sys, a: Action)
    requires PosInv(s) && (a.Enqueue? ==> IsCommand(a.command))
    ensures PosInv(Next(s, a)) && s.sent <= Next(s, a).sent && s.received <= Next(s, a).received
  {
    match a
    case Enqueue(c) => PutKeeps(s, c);
    case Fetch => FetchKeepsPos(s); FetchOutcome(s);
  }

  lemma {:induction false} RunKeepsPos(s: Sys, actions: seq<Action>)
    requires PosInv(s) && Commands(actions)
    ensures PosInv(Run(s, actions))
    ensures s.sent <= Run(s, actions).sent && s.received <= Run(s, actions).received
    decreases |actions|
  {
    hide ProducerInv, Next;
    if actions != [] {
      ShapeOf(s);
      NextKeepsPos(s, actions[0]);
      RunKeepsPos(Next(s, actions[0]), actions[1..]);
    }
  }

  lemma ShapeOf(s: Sys)
    requires PosInv(s)
    ensures Shape(s)
  {
  }

  lemma InitPos(n: nat, base: nat)
    requires n >= 2
    ensures PosInv(Init(n, base)) && Usable(Init(n, base)) == n - 1
  {
    InitProducerInv(n, base);
  }

  // ---- what is received, and when it is the right thing ----

  /** For each command received in a run, which of the commands sent it was. */
  function Taken(s: Sys, actions: seq<Action>): seq<nat>
    requires Shape(s)
    decreases |actions|
  {
    if actions == [] then []
    else (if actions[0].Fetch? && Takes(s) then [Newest(s)] else []) + Taken(Next(s, actions[0]), actions[1..])
  }

  /** No fetch of the run happens while the slot it looks at has been overwritten twice, or
      four times, and so on; a sender can tell from the numbers sent and received. */
  predicate Timely(s: Sys, actions: seq<Action>)
    requires Shape(s)
    decreases |actions|
  {
    actions == [] ||
    (&& (actions[0].Fetch? && Takes(s) ==> Overwrites(s) == 0)
     && Timely(Next(s, actions[0]), actions[1..]))
  }

  predicate Counts(t: seq<nat>, from: nat) {
    forall i :: 0 <= i < |t| ==> t[i] == from + i
  }

  lemma CountsCons(j: nat, t: seq<nat>, from: nat)
    ensures Counts([j] + t, from) <==> j == from && Counts(t, from + 1)
  {
    if Counts([j] + t, from) {
      assert ([j] + t)[0] == j;
      forall i | 0 <= i < |t| ensures t[i] == from + 1 + i { assert ([j] + t)[i + 1] == t[i]; }
    }
  }

  /** Which commands s' holds beyond those of s. */
  ghost predicate Delivered(s: Sys, s': Sys, t: seq<nat>) {
    && |s'.received| == |s.received| + |t|
    && forall i :: 0 <= i < |t| ==> t[i] < |s'.sent| && s'.received[|s.received| + i] == s'.sent[t[i]]
  }

  /** One action more: what it delivers comes first. */
  lemma TakenStep(s: Sys, actions: seq<Action>)
    requires PosInv(s) && Shape(s) && Commands(actions) && actions != []
    ensures var s1 := Next(s, actions[0]);
      && PosInv(s1) && s.sent <= s1.sent
      && if actions[0].Fetch? && Takes(s) then
           && Newest(s) < |s.sent| && s1.sent == s.sent && s1.received == s.received + [s.sent[Newest(s)]]
           && Taken(s, actions) == [Newest(s)] + Taken(s1, actions[1..])
         else
           s1.received == s.received && Taken(s, actions) == Taken(s1, actions[1..])
  {
    hide PosInv, Overwrites, Newest;
    NextKeepsPos(s, actions[0]);
    if actions[0].Fetch? { FetchOutcome(s); }
    if !(actions[0].Fetch? && Takes(s)) {
      assert [] + Taken(Next(s, actions[0]), actions[1..]) == Taken(Next(s, actions[0]), actions[1..]);
    }
  }

  lemma {:induction false} RunDelivers(s: Sys, actions: seq<Action>)
    requires PosInv(s) && Shape(s) && Commands(actions)
    ensures Delivered(s, Run(s, actions), Taken(s, actions))
    decreases |actions|
  {
    hide PosInv, Overwrites, Newest, Next;
    if actions != [] {
      var s1, rest := Next(s, actions[0]), actions[1..];
      TakenStep(s, actions);
      RunKeepsPos(s1, rest);
      RunDelivers(s1, rest);
      if actions[0].Fetch? && Takes(s) {
        DeliveredCons(s, s1, Run(s1, rest), Newest(s), Taken(s1, rest));
      }
    }
  }

  lemma {:induction false} InOrderIffTimely(s: Sys, actions: seq<Action>)
    requires PosInv(s) && Shape(s) && Commands(actions)
    ensures Counts(Taken(s, actions), |s.received|) <==> Timely(s, actions)
    decreases |actions|
  {
    hide PosInv, Overwrites, Newest, Next, Counts;
    if actions == [] {
      NothingCounts(|s.received|);
    } else {
      var s1, rest := Next(s, actions[0]), actions[1..];
      TakenStep(s, actions);
      InOrderIffTimely(s1, rest);
      if actions[0].Fetch? && Takes(s) {
        CountsCons(Newest(s), Taken(s1, rest), |s.received|);
        NewestIsNextIff(s);
      }
    }
  }

  lemma NothingCounts(from: nat)
    ensures Counts([], from)
  {
  }

  lemma NewestIsNextIff(s: Sys)
    requires Shape(s) && |s.received| < |s.sent|
    ensures Newest(s) == |s.received| <==> Overwrites(s) == 0
  {
    if Overwrites(s) > 0 { MulMonotone(1, Overwrites(s), Usable(s)); }
  }

  lemma DeliveredCons(s: Sys, s1: Sys, s': Sys, j: nat, t: seq<nat>)
    requires Delivered(s1, s', t) && s1.received <= s'.received && s1.sent <= s'.sent
    requires s.sent == s1.sent && j < |s.sent| && s1.received == s.received + [s.sent[j]]
    ensures Delivered(s, s', [j] + t)
  {
    forall i | 0 <= i < |t| + 1
      ensures ([j] + t)[i] < |s'.sent| && s'.received[|s.received| + i] == s'.sent[([j] + t)[i]]
    {
      if i > 0 { assert ([j] + t)[i] == t[i - 1]; }
    }
  }

  /** The commands the producers were called with, in order. */
  function Called(actions: seq<Action>): seq<Command> {
    if actions == [] then []
    else (if actions[0].Enqueue? then [actions[0].command] else []) + Called(actions[1..])
  }

  /** `sent` carries those commands, one for one, after what was there before. */
  ghost predicate SentCarries(before: seq<Trb>, sent: seq<Trb>, commands: seq<Command>) {
    && before <= sent && |sent| == |before| + |commands|
    && forall i :: 0 <= i < |commands| ==> Carries(sent[|before| + i], commands[i])
  }

  lemma {:induction false} SentIsWhatWasCalled(s: Sys, actions: seq<Action>)
    requires Shape(s) && Commands(actions)
    ensures SentCarries(s.sent, Run(s, actions).sent, Called(actions))
    decreases |actions|
  {
    hide Carries, Encode, IsCommand, Next, SentCarries;
    if actions == [] {
      NothingSent(s.sent);
    } else {
      var a, rest := actions[0], actions[1..];
      SentIsWhatWasCalled(Next(s, a), rest);
      SentStep(s, a);
      if a.Enqueue? {
        FieldsOf(a.command, s.cycle);
        SentCons(s.sent, Encode(a.command, s.cycle), Run(s, actions).sent, a.command, Called(rest));
      } else {
        assert Called(actions) == Called(rest);
      }
    }
  }

  lemma NothingSent(sent: seq<Trb>)
    ensures SentCarries(sent, sent, [])
  {
  }

  lemma SentStep(s: Sys, a: Action)
    requires Shape(s)
    ensures Next(s, a).sent == if a.Enqueue? then s.sent + [Encode(a.command, s.cycle)] else s.sent
  {
    hide Encode;
  }

  lemma SentCons(before: seq<Trb>, t: Trb, sent: seq<Trb>, c: Command, commands: seq<Command>)
    requires Carries(t, c) && SentCarries(before + [t], sent, commands)
    ensures SentCarries(before, sent, [c] + commands)
  {
    hide Carries;
    assert sent[|before|] == (before + [t])[|before|] == t;
    forall i | 0 <= i < |commands| + 1 ensures Carries(sent[|before| + i], ([c] + commands)[i]) {
      if i > 0 { assert Carries(sent[|before| + 1 + (i - 1)], commands[i - 1]); }
    }
  }

  lemma FieldsOf(c: Command, cycle: bool)
    requires IsCommand(c)
    ensures Carries(Encode(c, cycle), c)
  {
    EncodeFields(c, cycle);
  }

  /** In every run of any mix of producers and fetches, overrunning or not: what was sent
      carries the commands the producers were called with, one for one; never more than two
      laps are received; every TRB received carries one of those commands, namely the one
      whose turn its slot held; and they are the first ones sent, in order, if and only if no fetch came
      after its slot had been overwritten a positive even number of times. */
  lemma CommandRingDelivery(n: nat, base: nat, actions: seq<Action>)
    requires n >= 2 && Commands(actions)
    ensures var s, t := Run(Init(n, base), actions), Taken(Init(n, base), actions);
      && |t| == |s.received| <= |s.sent| && |s.received| <= 2 * (n - 1)
      && |s.sent| == |Called(actions)|
      && (forall i :: 0 <= i < |t| ==>
            t[i] < |s.sent| && s.received[i] == s.sent[t[i]] && Carries(s.received[i], Called(actions)[t[i]]))
      && (Counts(t, 0) <==> Timely(Init(n, base), actions))
      && (Timely(Init(n, base), actions) ==> s.received <= s.sent)
  {
    hide ProducerInv, Next, Takes, Newest, Carries, Called, Commands;
    InitPos(n, base);
    RunKeepsPos(Init(n, base), actions);
    SentIsWhatWasCalled(Init(n, base), actions);
    RunDelivers(Init(n, base), actions);
    InOrderIffTimely(Init(n, base), actions);
  }

  /** The smallest overrun that delivers a wrong command, on a ring of any length: with two
      laps and one command sent before the first fetch, that fetch takes the last of them. */
  lemma LateFetchTakesTheWrongCommand(n: nat, base: nat, commands: seq<Command>)
    requires n >= 2 && |commands| == 2 * (n - 1) + 1 && (forall i :: 0 <= i < |commands| ==> IsCommand(commands[i]))
    ensures var s := Run(Init(n, base), Enqueues(commands));
      && |s.sent| == 2 * (n - 1) + 1
      && FetchStep(s).received == [s.sent[2 * (n - 1)]]
  {
    hide ProducerInv, Put, FetchStep;
    InitPos(n, base);
    EnqueuesOnly(Init(n, base), commands);
    RunKeepsPos(Init(n, base), Enqueues(commands));
    var s, u := Run(Init(n, base), Enqueues(commands)), n - 1;
    DivModUnique(2 * u, u, 2, 0);
    FetchOutcome(s);
  }

  function Enqueues(commands: seq<Command>): seq<Action> {
    seq(|commands|, i requires 0 <= i < |commands| => Enqueue(commands[i]))
  }

  lemma {:induction false} EnqueuesOnly(s: Sys, commands: seq<Command>)
    requires Shape(s)
    ensures var s' := Run(s, Enqueues(commands));
      && |s'.sent| == |s.sent| + |commands| && s'.received == s.received
      && s'.index == s.index && s'.ccs == s.ccs
    decreases |commands|
  {
    if commands != [] {
      assert Enqueues(commands)[1..] == Enqueues(commands[1..]);
      EnqueuesOnly(Put(s, commands[0]), commands[1..]);
    }
  }

  // ---- how far the controller gets ----

  /** The controller is in step: it has received the first commands, and no slot it still
      has to read was overwritten. */
  ghost predicate InStep(s: Sys) {
    PosInv(s) && |s.sent| <= |s.received| + Usable(s) && s.received == s.sent[..|s.received|]
  }

  lemma NotOverwritten(s: Sys)
    requires Shape(s) && |s.received| < |s.sent| <= |s.received| + Usable(s)
    ensures Overwrites(s) == 0 && Newest(s) == |s.received|
  {
    DivModUnique(|s.sent| - 1 - |s.received|, Usable(s), 0, |s.sent| - 1 - |s.received|);
  }

  lemma FetchKeeps(s: Sys)
    requires InStep(s)
    ensures InStep(FetchStep(s))
  {
    hide ProducerInv, FetchStep, Overwrites, Newest;
    ShapeOf(s);
    FetchKeepsPos(s);
    FetchOutcome(s);
    if Takes(s) { NotOverwritten(s); }
  }

  lemma EnqueueKeeps(s: Sys, c: Command)
    requires InStep(s) && IsCommand(c) && |s.sent| - |s.received| < Usable(s)
    ensures InStep(Put(s, c))
  {
    PutKeeps(s, c);
    hide ProducerInv;
    assert s.received == Put(s, c).sent[..|s.received|];
  }

  lemma InitInStep(n: nat, base: nat)
    requires n >= 2
    ensures InStep(Init(n, base))
  {
    InitPos(n, base);
  }

  function Fetches(m: nat): seq<Action> {
    seq(m, _ => Fetch)
  }

  lemma {:induction false} FetchesKeep(s: Sys, m: nat)
    requires InStep(s)
    ensures InStep(Run(s, Fetches(m))) && Run(s, Fetches(m)).sent == s.sent
    decreases m
  {
    if m > 0 {
      assert Fetches(m)[1..] == Fetches(m - 1);
      FetchKeeps(s);
      hide ProducerInv;
      FetchesKeep(FetchStep(s), m - 1);
    }
  }

  /** A fetch in step either takes one command, or follows the Link into the second lap, or
      finds nothing more to do. */
  lemma FetchMoves(s: Sys)
    requires InStep(s)
    ensures Shape(s)
    ensures var s', u := FetchStep(s), Usable(s);
      && s'.sent == s.sent && Usable(s') == u
      && (s' == s ==> |s.received| == Min(|s.sent|, 2 * u))
      && (s' != s ==> |s'.received| + (if s'.ccs then 0 else 1) == |s.received| + (if s.ccs then 0 else 1) + 1)
  {
    FetchOutcome(s);
    hide FetchStep, ProducerInv, Overwrites, Newest;
    if |s.received| < |s.sent| { ShapeOf(s); NotOverwritten(s); }
  }

  /** Left alone for one fetch per outstanding command and one for the Link, the
      controller ends with everything sent, cut off at two laps. */
  lemma {:induction false} DrainsToTwoLaps(s: Sys, m: nat)
    requires InStep(s) && m >= |s.sent| - |s.received| + (if s.ccs then 1 else 0)
    ensures |Run(s, Fetches(m)).received| == Min(|s.sent|, 2 * Usable(s))
    decreases m
  {
    hide ProducerInv, Cycle, TrbType, Toggles;
    if m > 0 {
      assert Fetches(m)[1..] == Fetches(m - 1);
      FetchKeeps(s);
      FetchMoves(s);
      if FetchStep(s) == s {
        DrainedStays(s, m);
      } else {
        hide FetchStep;
        DrainsToTwoLaps(FetchStep(s), m - 1);
      }
    }
  }

  lemma {:induction false} DrainedStays(s: Sys, m: nat)
    requires Shape(s) && FetchStep(s) == s
    ensures Run(s, Fetches(m)) == s
  {
    if m > 0 {
      assert Fetches(m)[1..] == Fetches(m - 1);
      DrainedStays(s, m - 1);
    }
  }

  /** Once the producers are more than a lap ahead, fetching alone never catches up: it
      stops at the latest before the slot that was overwritten once. */
  lemma {:induction false} LateStaysLate(s: Sys, m: nat)
    requires PosInv(s) && |s.sent| > |s.received| + Usable(s)
    ensures var s' := Run(s, Fetches(m));
      PosInv(s') && s'.sent == s.sent && |s.sent| > |s'.received| + Usable(s)
    decreases m
  {
    hide ProducerInv, FetchStep;
    if m > 0 {
      ShapeOf(s);
      assert Fetches(m)[1..] == Fetches(m - 1);
      FetchKeepsPos(s);
      FetchOutcome(s);
      if Takes(s) && |s.sent| == |s.received| + 1 + Usable(s) {
        DivModUnique(Usable(s), Usable(s), 1, 0);
        assert false;
      }
      LateStaysLate(FetchStep(s), m - 1);
    }
  }

  /** The exact bound, for every run: given time, the controller receives exactly what was
      sent if and only if what it has so far is right, no slot it still has to read was
      overwritten, and at most two laps were sent. */
  lemma AllDeliveredIff(n: nat, base: nat, actions: seq<Action>, m: nat)
    requires n >= 2 && Commands(actions)
    ensures var s := Run(Init(n, base), actions);
      m > |s.sent| - |s.received| ==>
        (Run(s, Fetches(m)).received == s.sent <==>
           s.received <= s.sent && |s.sent| - |s.received| <= n - 1 && |s.sent| <= 2 * (n - 1))
  {
    hide ProducerInv, FetchStep, Put;
    InitPos(n, base);
    RunKeepsPos(Init(n, base), actions);
    var s := Run(Init(n, base), actions);
    if m > |s.sent| - |s.received| {
      FetchesAreCommands(m);
      RunKeepsPos(s, Fetches(m));
      if |s.sent| > |s.received| + (n - 1) {
        LateStaysLate(s, m);
      } else if s.received <= s.sent {
        DrainsToTwoLaps(s, m);
        FetchesKeep(s, m);
      }
    }
  }

  lemma FetchesAreCommands(m: nat)
    ensures Commands(Fetches(m))
  {
  }

  /** After two laps the controller stands before a Link whose cycle bit nobody updates:
      nothing that happens later, overrunning or not, ever gets it moving again. */
  lemma StuckAtLink(n: nat, base: nat, actions: seq<Action>, later: seq<Action>)
    requires n >= 2 && Commands(actions) && Commands(later)
    ensures var s := Run(Init(n, base), actions);
      |s.received| == 2 * (n - 1) ==> Run(s, later).received == s.received
  {
    hide ProducerInv, FetchStep, Put;
    InitPos(n, base);
    RunKeepsPos(Init(n, base), actions);
    var s := Run(Init(n, base), actions);
    if |s.received| == 2 * (n - 1) { StuckRun(s, later); }
  }

  lemma {:induction false} StuckRun(s: Sys, actions: seq<Action>)
    requires ProducerInv(s) && s.index == Usable(s) && !s.ccs && Commands(actions)
    ensures Run(s, actions).received == s.received
    decreases |actions|
  {
    if actions != [] {
      NextKeepsProducer(s, actions[0]);
      StuckRun(Next(s, actions[0]), actions[1..]);
    }
  }

  lemma {:induction false} RunAppend(s: Sys, a: seq<Action>, b: seq<Action>)
    requires Shape(s)
    ensures Run(s, a + b) == Run(Run(s, a), b)
    decreases |a|
  {
    if a == [] {
      assert a + b == b;
    } else {
      assert (a + b)[1..] == a[1..] + b;
      RunAppend(Next(s, a[0]), a[1..], b);
    }
  }

  /** The driver's own pattern: one command at a time, the controller running in between. */
  function Serial(k: nat): seq<Action> {
    if k == 0 then [] else Serial(k - 1) + ([Enqueue(Noop)] + Fetches(2))
  }

  lemma OneMore(s: Sys)
    requires InStep(s) && |s.sent| < 3 * Usable(s) && |s.received| == Min(|s.sent|, 2 * Usable(s))
    ensures var s' := Run(Put(s, Noop), Fetches(2));
      && InStep(s') && Usable(s') == Usable(s)
      && |s'.sent| == |s.sent| + 1 && |s'.received| == Min(|s'.sent|, 2 * Usable(s))
  {
    EnqueueKeeps(s, Noop);
    var s1 := Put(s, Noop);
    FetchesKeep(s1, 2);
    if |s.received| == 2 * Usable(s) { DrainedStays(s1, 2); } else { DrainsToTwoLaps(s1, 2); }
  }

  /** Even used one command at a time, the ring of every length loses every command
      after the second lap: the first two laps arrive and the third does not. */
  lemma {:induction false} SerialUseLosesThirdLap(n: nat, base: nat, k: nat)
    requires n >= 2 && k <= 3 * (n - 1)
    ensures var s := Run(Init(n, base), Serial(k));
      && InStep(s) && |s.sent| == k && |s.received| == Min(k, 2 * (n - 1))
  {
    hide InStep, Put, FetchStep, Init, Fetches;
    InitFacts(n, base);
    if k > 0 {
      SerialUseLosesThirdLap(n, base, k - 1);
      var s := Run(Init(n, base), Serial(k - 1));
      RunAppend(Init(n, base), Serial(k - 1), [Enqueue(Noop)] + Fetches(2));
      assert ([Enqueue(Noop)] + Fetches(2))[1..] == Fetches(2);
      OneMore(s);
    }
  }

  lemma InitFacts(n: nat, base: nat)
    requires n >= 2
    ensures var s := Init(n, base);
      InStep(s) && Shape(s) && Usable(s) == n - 1 && |s.sent| == 0 && |s.received| == 0
  {
    InitInStep(n, base);
  }

  // ---- the producers themselves ----

  /** The command-ring fields of `ControllerState` and the slots in memory. */
  class Producer {
    const base: nat
    const slots: array<Trb>
    var enqueue: nat
    var cycle: bool
    ghost var sent: seq<Trb>

    /** The producer's side; the consumer's is shown as it starts, since no producer
        touches it. */
    ghost function State(): Sys
      reads this, slots
    {
      Sys(slots[..], base, enqueue, cycle, 0, true, sent, [])
    }

    constructor (n: nat, base: nat)
      ensures fresh(slots) && State() == Init(n, base)
    {
      this.base := base;
      slots := new Trb[n](_ => ZERO);
      enqueue, cycle, sent := 0, true, [];
      new;
      if n > 0 {
        slots[n - 1] := Link(base);
        assert slots[..] == seq(n - 1, _ => ZERO) + [Link(base)];
      }
    }

    method EnqueueNoop()
      modifies this, slots
      ensures State() == Put(old(State()), Noop)
      ensures slots.Length >= 2 ==>
        Carries(slots[old(enqueue) % (slots.Length - 1)], Noop)
    {
      hide Carries;
      var usable := if slots.Length >= 1 then slots.Length - 1 else 0;
      if usable == 0 { return; }
      slots[enqueue % usable] := Trb(0, 0, NO_OP_COMMAND % 64 * 1024 + 32 + Bit(cycle));
      EncodeFields(Noop, cycle);
      sent := sent + [Encode(Noop, cycle)];
      enqueue := (enqueue + 1) % usable;
      if enqueue == 0 { cycle := !cycle; }
    }

    method EnqueueCommand(trbType: nat, parameter: nat, status: nat)
      modifies this, slots
      ensures State() == Put(old(State()), Plain(trbType, parameter, status))
      ensures slots.Length >= 2 ==>
        Carries(slots[old(enqueue) % (slots.Length - 1)], Plain(trbType, parameter, status))
    {
      hide Carries;
      var usable := if slots.Length >= 1 then slots.Length - 1 else 0;
      if usable == 0 { return; }
      slots[enqueue % usable] := Trb(parameter, status, trbType % 64 * 1024 + 32 + Bit(cycle));
      EncodeFields(Plain(trbType, parameter, status), cycle);
      sent := sent + [Encode(Plain(trbType, parameter, status), cycle)];
      enqueue := (enqueue + 1) % usable;
      if enqueue == 0 { cycle := !cycle; }
    }

    method EnqueueCommandSlot(trbType: nat, parameter: nat, status: nat, slotId: nat)
      modifies this, slots
      ensures State() == Put(old(State()), Slotted(trbType, parameter, status, slotId))
      ensures slotId < 256 && slots.Length >= 2 ==>
        Carries(slots[old(enqueue) % (slots.Length - 1)], Slotted(trbType, parameter, status, slotId))
    {
      hide Carries;
      var usable := if slots.Length >= 1 then slots.Length - 1 else 0;
      if usable == 0 { return; }
      var control := trbType % 64 * 1024 + 32 + Bit(cycle);
      control := control + slotId * 65536;
      slots[enqueue % usable] := Trb(parameter, status, control);
      if slotId < 256 { EncodeFields(Slotted(trbType, parameter, status, slotId), cycle); }
      sent := sent + [Encode(Slotted(trbType, parameter, status, slotId), cycle)];
      enqueue := (enqueue + 1) % usable;
      if enqueue == 0 { cycle := !cycle; }
    }
  }
}
