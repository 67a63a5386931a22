/** The xHCI event ring.  The controller produces events under sections 4.9.3 and
    4.9.4 of the xHCI specification; `poll_events` consumes them.  The only shared
    words are the ring slots (one cycle bit each decides ownership) and the event
    ring dequeue pointer register (ERDP). */
module EventRing {
  import opened RingArithmetic
  import opened Trbs

  // ---- the two-party step system ----

  /** Where the consumer stands; the producer may move between any two steps. */
  datatype Pc =
    | Idle                 // outside poll_events
    | AtRead               // about to read the slot at the dequeue index
    | AtCompare(trb: Trb)  // slot read, cycle bit not yet compared
    | AtAdvance            // event handed on, dequeue index not yet moved
    | AtReport             // dequeue index moved, ERDP not yet written

  datatype Sys = Sys(
    ring: seq<Trb>,
    hwIndex: nat, hwCycle: bool,              // producer's position
    base: nat, erdp: nat,                     // ring address and ERDP register
    dequeue: nat, cycle: bool, pc: Pc,        // consumer
    produced: seq<Trb>, handled: seq<Trb>)    // histories

  datatype Action = Produce(trb: Trb) | Consume

  const TRB_SIZE := 16
  const EHB := 8  // Event Handler Busy, bit 3 of ERDP

  /** The slot the ERDP register names; its low four bits are flags. */
  function ErdpIndex(s: Sys): int {
    (s.erdp - s.base) / TRB_SIZE
  }

  predicate Shape(s: Sys) {
    0 < |s.ring| && s.hwIndex < |s.ring| && s.dequeue < |s.ring|
  }

  function Init(n: nat, base: nat): Sys
    requires n > 0
  {
    Sys(seq(n, _ => ZERO), 0, true, base, base, 0, true, Idle, [], [])
  }

  /** The producer writes with its own cycle bit, flips it on wrap, and writes
      nothing when that would bring its index onto the reported dequeue index. */
  function HwWrite(s: Sys, t: Trb): Sys
    requires Shape(s)
  {
    var next := (s.hwIndex + 1) % |s.ring|;
    if next == ErdpIndex(s) then s
    else
      var w := WithCycle(t, s.hwCycle);
      s.(ring := s.ring[s.hwIndex := w], hwIndex := next,
         hwCycle := if next == 0 then !s.hwCycle else s.hwCycle,
         produced := s.produced + [w])
  }

  function ConsumerStep(s: Sys): Sys
    requires Shape(s)
  {
    match s.pc
    case Idle => s.(pc := AtRead)
    case AtRead => s.(pc := AtCompare(s.ring[s.dequeue]))
    case AtCompare(trb) =>
      if Cycle(trb) != s.cycle then s.(pc := Idle)
      else s.(pc := AtAdvance, handled := s.handled + [trb])
    case AtAdvance =>
      var next := (s.dequeue + 1) % |s.ring|;
      s.(pc := AtReport, dequeue := next, cycle := if next == 0 then !s.cycle else s.cycle)
    case AtReport =>
      s.(pc := AtRead, erdp := s.base + s.dequeue * TRB_SIZE + EHB)
  }

  function Next(s: Sys, a: Action): (r: Sys)
    requires Shape(s)
    ensures Shape(r) && |r.ring| == |s.ring|
  {
    match a
    case Produce(t) => HwWrite(s, t)
    case Consume => ConsumerStep(s)
  }

  function Run(s: Sys, actions: seq<Action>): (r: Sys)
    requires Shape(s)
    ensures Shape(r) && |r.ring| == |s.ring|
    decreases |actions|
  {
    if actions == [] then s else Run(Next(s, actions[0]), actions[1..])
  }

  // ---- the invariant ----

  /** Events the dequeue index has moved past. */
  function Dequeued(s: Sys): int {
    |s.handled| - if s.pc.AtAdvance? then 1 else 0
  }

  /** Events the controller has been told about. */
  function Reported(s: Sys): int {
    Dequeued(s) - if s.pc.AtReport? then 1 else 0
  }

  ghost predicate Inv(s: Sys) {
    var n, p, d, e := |s.ring|, |s.produced|, Dequeued(s), Reported(s);
    && Shape(s)
    && 0 <= e && |s.handled| <= p < e + n
    && s.hwIndex == p % n && s.hwCycle == LapCycle(p, n)
    && s.dequeue == d % n && s.cycle == LapCycle(d, n)
    && s.erdp == s.base + e % n * TRB_SIZE + (if e > 0 then EHB else 0)
    && s.handled == s.produced[..|s.handled|]
    && RingHolds(s.ring, s.produced)
    && (s.pc.AtCompare? && Cycle(s.pc.trb) == s.cycle ==> d < p && s.pc.trb == s.produced[d])
  }

  lemma ErdpNames(s: Sys)
    requires Inv(s)
    ensures ErdpIndex(s) == Reported(s) % |s.ring|
  {
    var i := Reported(s) % |s.ring|;
    DivModUnique(s.erdp - s.base, TRB_SIZE, i, s.erdp - s.base - i * TRB_SIZE);
  }

  /** The heart of the protocol: looking at one bit of one slot tells the consumer
      whether an event is pending there, and then the slot holds that very event. */
  lemma CycleBitDecides(s: Sys)
    requires Inv(s)
    ensures Cycle(s.ring[s.dequeue]) == s.cycle <==> Dequeued(s) < |s.produced|
    ensures Dequeued(s) < |s.produced| ==> s.ring[s.dequeue] == s.produced[Dequeued(s)]
  {
    var n, p, d := |s.ring|, |s.produced|, Dequeued(s);
    if d < p {
      assert s.ring[d % n] == s.produced[d];
    } else {
      UntouchedSlot(s.ring, s.produced);
    }
  }

  lemma HwWriteKeeps(s: Sys, t: Trb)
    requires Inv(s)
    ensures Inv(HwWrite(s, t))
  {
    hide RingHolds, Cycle;
    var n, p, e := |s.ring|, |s.produced|, Reported(s);
    var s' := HwWrite(s, t);
    ErdpNames(s);
    if s' != s {
      Advance(p, n);
      if p + 1 == e + n {
        PreviousLap(p + 1, n);
        assert false;
      }
      RingGrows(s.ring, s.produced, WithCycle(t, s.hwCycle));
      assert s'.handled == s'.produced[..|s'.handled|];
    }
  }

  lemma AdvanceKeeps(s: Sys)
    requires Inv(s) && s.pc.AtAdvance?
    ensures Inv(ConsumerStep(s))
  {
    hide RingHolds;
    Advance(Dequeued(s), |s.ring|);
    assert Dequeued(ConsumerStep(s)) == Dequeued(s) + 1;
  }

  lemma CompareKeeps(s: Sys)
    requires Inv(s) && s.pc.AtCompare?
    ensures Inv(ConsumerStep(s))
  {
    hide RingHolds;
  }

  lemma ConsumerStepKeeps(s: Sys)
    requires Inv(s)
    ensures Inv(ConsumerStep(s))
  {
    hide RingHolds;
    match s.pc
    case Idle =>
    case AtRead => CycleBitDecides(s);
    case AtCompare(trb) => CompareKeeps(s);
    case AtAdvance => AdvanceKeeps(s);
    case AtReport =>
  }

  lemma NextKeeps(s: Sys, a: Action)
    requires Inv(s)
    ensures Inv(Next(s, a))
  {
    match a
    case Produce(t) => HwWriteKeeps(s, t);
    case Consume => ConsumerStepKeeps(s);
  }

  lemma InitInv(n: nat, base: nat)
    requires n > 0
    ensures Inv(Init(n, base))
  {
    FirstLap(0, n);
  }

  lemma {:induction false} RunKeeps(s: Sys, actions: seq<Action>)
    requires Inv(s)
    ensures Inv(Run(s, actions))
    decreases |actions|
  {
    if actions != [] {
      NextKeeps(s, actions[0]);
      RunKeeps(Next(s, actions[0]), actions[1..]);
    }
  }

  lemma {:induction false} RunAppend(s: Sys, a: seq<Action>, b: seq<Action>)
    requires Shape(s)
    ensures Run(s, a + b) == Run(Run(s, a), b)
    decreases |a|
  {
    if a == [] {
      assert a + b == b;
    } else {
      assert (a + b)[1..] == a[1..] + b;
      RunAppend(Next(s, a[0]), a[1..], b);
    }
  }

  // ---- the theorem ----

  /** For every ring length and every interleaving, the events handed on are exactly
      the first ones produced, in order; the register names the consumer's index
      except in the one gap between moving and reporting, and since the first report its
      low bits are 8, which clears the busy flag; and the bit the consumer
      is about to test says exactly whether something is pending at that read. */
  lemma EventRingRefinesFifo(n: nat, base: nat, actions: seq<Action>)
    requires n > 0
    ensures
      var s := Run(Init(n, base), actions);
      && s.handled <= s.produced
      && |s.produced| - |s.handled| < n
      && (s.pc.AtReport? || ErdpIndex(s) == s.dequeue)
      && (s.pc.AtReport? ==> (ErdpIndex(s) + 1) % n == s.dequeue)
      && (!s.pc.AtReport? && Dequeued(s) > 0 ==> s.erdp == base + 16 * s.dequeue + 8)
      && (s.pc.AtRead? ==>
            && (Cycle(s.ring[s.dequeue]) == s.cycle <==> s.handled != s.produced)
            && (s.handled != s.produced ==> s.ring[s.dequeue] == s.produced[|s.handled|]))
  {
    hide Run, RingHolds, HwWrite, ConsumerStep, Cycle;
    InitInv(n, base);
    RunKeeps(Init(n, base), actions);
    RunKeepsBase(Init(n, base), actions);
    var s := Run(Init(n, base), actions);
    ErdpNames(s);
    ErdpAfterReport(s);
    if s.pc.AtRead? { PendingAtRead(s); }
    if s.pc.AtReport? { Advance(Reported(s), n); }
  }

  lemma ErdpAfterReport(s: Sys)
    requires Inv(s)
    ensures !s.pc.AtReport? && Dequeued(s) > 0 ==> s.erdp == s.base + 16 * s.dequeue + 8
  {
  }

  lemma {:induction false} RunKeepsBase(s: Sys, actions: seq<Action>)
    requires Shape(s)
    ensures Run(s, actions).base == s.base
    decreases |actions|
  {
    if actions != [] { RunKeepsBase(Next(s, actions[0]), actions[1..]); }
  }

  lemma PendingAtRead(s: Sys)
    requires Inv(s) && s.pc.AtRead?
    ensures Shape(s) && s.handled <= s.produced
    ensures Cycle(s.ring[s.dequeue]) == s.cycle <==> s.handled != s.produced
    ensures s.handled != s.produced ==> s.ring[s.dequeue] == s.produced[|s.handled|]
  {
    CycleBitDecides(s);
    assert s.handled == s.produced <==> |s.handled| == |s.produced|;
  }

  // ---- poll_events itself ----

  function Deliveries(batch: seq<Trb>): seq<Action> {
    seq(|batch|, i requires 0 <= i < |batch| => Produce(batch[i]))
  }

  lemma DeliveriesOf(batch: seq<Trb>)
    ensures |Deliveries(batch)| == |batch|
    ensures forall i :: 0 <= i < |batch| ==> Deliveries(batch)[i] == Produce(batch[i])
  {
  }

  lemma Ready(s: Sys)
    requires Inv(s)
    ensures Shape(s) && s.base <= s.erdp && Run(s, []) == s
  {
  }

  /** The ring fields of `ControllerState`, the slots in memory, and the controller
      on the other side of them. */
  class Controller {
    const base: nat
    const ring: array<Trb>
    var dequeue: nat
    var cycle: bool
    var erdp: nat
    var handled: seq<Trb>   // arguments of the handle_event calls, oldest first
    var hwIndex: nat
    var hwCycle: bool
    var produced: seq<Trb>

    function State(pc: Pc): Sys
      reads this, ring
    {
      Sys(ring[..], hwIndex, hwCycle, base, erdp, dequeue, cycle, pc, produced, handled)
    }

    constructor (n: nat, base: nat)
      requires n > 0
      ensures fresh(ring) && State(Idle) == Init(n, base)
    {
      this.base, erdp := base, base;
      ring := new Trb[n](_ => ZERO);
      dequeue, cycle, handled := 0, true, [];
      hwIndex, hwCycle, produced := 0, true, [];
      new;
      assert ring[..] == seq(n, _ => ZERO);
    }

    /** The controller posts one event, if it may. */
    method Post(t: Trb, ghost pc: Pc)
      requires Shape(State(pc)) && base <= erdp
      modifies this`hwIndex, this`hwCycle, this`produced, ring
      ensures State(pc) == HwWrite(old(State(pc)), t) && Shape(State(pc))
      ensures old(produced) <= produced
    {
      var next := (hwIndex + 1) % ring.Length;
      if next != (erdp - base) / TRB_SIZE {
        var w := WithCycle(t, hwCycle);
        ring[hwIndex] := w;
        hwIndex, produced := next, produced + [w];
        if next == 0 { hwCycle := !hwCycle; }
      }
    }

    /** The controller posts a batch of events. */
    method Hardware(batch: seq<Trb>, ghost pc: Pc)
      requires Inv(State(pc))
      modifies this`hwIndex, this`hwCycle, this`produced, ring
      ensures State(pc) == Run(old(State(pc)), Deliveries(batch)) && Inv(State(pc))
      ensures old(produced) <= produced
      ensures batch == [] ==> produced == old(produced)
    {
      hide Inv, Run, HwWrite, Deliveries;
      ghost var s0 := State(pc);
      Ready(s0);
      DeliveriesOf(batch);
      ghost var done := [];
      for i := 0 to |batch|
        invariant done == Deliveries(batch)[..i] && Shape(State(pc))
        invariant State(pc) == Run(s0, done) && Inv(State(pc))
        invariant old(produced) <= produced
        invariant i == 0 ==> produced == old(produced)
      {
        ghost var s := State(pc);
        Post(batch[i], pc);
        done := Moved(s0, done, Produce(batch[i]), s, State(pc));
      }
      assert Deliveries(batch)[..|batch|] == Deliveries(batch);
    }

    /** The present state is what `actions` make of s0. */
    ghost predicate Tracks(pc: Pc, s0: Sys, actions: seq<Action>)
      reads this, ring
    {
      Shape(s0) && State(pc) == Run(s0, actions) && Inv(State(pc))
    }

    /** `poll_events`.  `traffic` lists what the controller posts in the gaps between
        the consumer's memory accesses, in order.  The call is a run of the step system;
        it hands on at least everything posted before it started. */
    method PollEvents(traffic: seq<seq<Trb>>) returns (processed: bool, ghost actions: seq<Action>)
      requires Inv(State(Idle))
      modifies this, ring
      ensures Tracks(Idle, old(State(Idle)), actions)
      ensures old(produced) <= handled <= produced
      ensures old(handled) <= handled && (processed <==> handled != old(handled))
      ensures traffic == [] ==> handled == produced == old(produced)
    {
      hide Inv, Run, State, Tracks;
      ghost var s0 := State(Idle);
      actions := Enter();
      processed := false;
      var t := 0;
      while true
        invariant 0 <= t <= |traffic| && Tracks(AtRead, s0, actions)
        invariant old(produced) <= produced && old(handled) <= handled <= produced
        invariant processed <==> handled != old(handled)
        invariant traffic == [] ==> produced == old(produced)
        decreases |traffic| - t, |produced| - |handled|
      {
        actions, t := Gap(traffic, t, AtRead, s0, actions);
        var trb;
        trb, actions := ReadSlot(s0, actions);
        ghost var seen := produced;
        actions, t := Gap(traffic, t, AtCompare(trb), s0, actions);
        if Cycle(trb) != cycle {
          actions := Leave(trb, s0, actions);
          assert handled == seen;
          break;
        }
        actions, t := HandOn(trb, traffic, t, s0, actions);
        processed := true;
      }
    }

    /** The call. */
    lemma Enter() returns (actions: seq<Action>)
      requires Inv(State(Idle))
      ensures Tracks(AtRead, State(Idle), actions) && handled <= produced
    {
      assert Run(State(Idle), []) == State(Idle);
      actions := Moved(State(Idle), [], Consume, State(Idle), State(AtRead));
    }

    /** The volatile read of the slot at the dequeue index. */
    method ReadSlot(ghost s0: Sys, ghost actions: seq<Action>) returns (trb: Trb, ghost actions': seq<Action>)
      requires Tracks(AtRead, s0, actions)
      ensures Tracks(AtCompare(trb), s0, actions')
      ensures handled <= produced && (Cycle(trb) == cycle <==> handled != produced)
      ensures handled != produced ==> trb == produced[|handled|]
    {
      PendingAtRead(State(AtRead));
      trb := ring[dequeue];
      actions' := Moved(s0, actions, Consume, State(AtRead), State(AtCompare(trb)));
    }

    /** The break. */
    lemma Leave(trb: Trb, s0: Sys, actions: seq<Action>) returns (actions': seq<Action>)
      requires Tracks(AtCompare(trb), s0, actions) && Cycle(trb) != cycle
      ensures Tracks(Idle, s0, actions')
    {
      actions' := Moved(s0, actions, Consume, State(AtCompare(trb)), State(Idle));
    }

    /** The part of the loop after the test: hand the event on, move, report. */
    method HandOn(trb: Trb, traffic: seq<seq<Trb>>, t: nat, ghost s0: Sys, ghost actions: seq<Action>)
      returns (ghost actions': seq<Action>, t': nat)
      requires t <= |traffic| && Tracks(AtCompare(trb), s0, actions) && Cycle(trb) == cycle
      modifies this, ring
      ensures Tracks(AtRead, s0, actions')
      ensures handled == old(handled) + [trb] && old(produced) <= produced && handled <= produced
      ensures t <= t' <= |traffic| && (t == t' ==> t == |traffic|)
      ensures t == |traffic| ==> produced == old(produced)
    {
      hide Inv, Run, State, Tracks;
      actions' := HandleEvent(trb, s0, actions);
      actions', t' := Gap(traffic, t, AtAdvance, s0, actions');
      actions' := MoveOn(s0, actions');
      actions', t' := Gap(traffic, t', AtReport, s0, actions');
      actions' := SetErdp(s0, actions');
    }

    method HandleEvent(trb: Trb, ghost s0: Sys, ghost actions: seq<Action>) returns (ghost actions': seq<Action>)
      requires Tracks(AtCompare(trb), s0, actions) && Cycle(trb) == cycle
      modifies this`handled
      ensures Tracks(AtAdvance, s0, actions')
      ensures handled == old(handled) + [trb] && handled <= produced
    {
      ghost var s := State(AtCompare(trb));
      handled := handled + [trb];
      actions' := Moved(s0, actions, Consume, s, State(AtAdvance));
    }

    method MoveOn(ghost s0: Sys, ghost actions: seq<Action>) returns (ghost actions': seq<Action>)
      requires Tracks(AtAdvance, s0, actions)
      modifies this`dequeue, this`cycle
      ensures Tracks(AtReport, s0, actions')
    {
      ghost var s := State(AtAdvance);
      assert Shape(s);
      hide Inv, Run;
      dequeue := (dequeue + 1) % ring.Length;
      if dequeue == 0 { cycle := !cycle; }
      actions' := Moved(s0, actions, Consume, s, State(AtReport));
    }

    method SetErdp(ghost s0: Sys, ghost actions: seq<Action>) returns (ghost actions': seq<Action>)
      requires Tracks(AtReport, s0, actions)
      modifies this`erdp
      ensures Tracks(AtRead, s0, actions')
    {
      ghost var s := State(AtReport);
      assert Shape(s);
      hide Inv, Run;
      erdp := base + dequeue * TRB_SIZE + EHB;
      actions' := Moved(s0, actions, Consume, s, State(AtRead));
    }

    /** One gap between two accesses of the consumer. */
    method Gap(traffic: seq<seq<Trb>>, t: nat, ghost pc: Pc, ghost s0: Sys, ghost actions: seq<Action>)
      returns (ghost actions': seq<Action>, t': nat)
      requires t <= |traffic| && Tracks(pc, s0, actions)
      modifies this`hwIndex, this`hwCycle, this`produced, ring
      ensures Tracks(pc, s0, actions')
      ensures old(produced) <= produced
      ensures t' == if t < |traffic| then t + 1 else t
      ensures t == |traffic| ==> produced == old(produced)
    {
      actions', t' := actions, t;
      if t < |traffic| {
        Hardware(traffic[t], pc);
        actions', t' := actions + Deliveries(traffic[t]), t + 1;
        RunAppend(s0, actions, Deliveries(traffic[t]));
      }
    }
  }

  /** Extends a run by one step. */
  lemma Moved(s0: Sys, actions: seq<Action>, a: Action, s: Sys, s': Sys) returns (actions': seq<Action>)
    requires Shape(s0) && s == Run(s0, actions) && Inv(s)
    requires s' == Next(s, a)
    ensures actions' == actions + [a] && s' == Run(s0, actions') && Inv(s') && Shape(s')
  {
    actions' := actions + [a];
    RunAppend(s0, actions, [a]);
    NextKeeps(s, a);
  }
}
