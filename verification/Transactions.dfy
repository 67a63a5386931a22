/** `apply_action_atomic`: gate, validation, lock, intent, execution, self-test, commit or
    rollback.  Any number of calls interleave; the journal is the sequence of records
    they write.  The self-test's answer is chosen by the environment. */
module Transactions {
  import opened Bytes
  import opened Actions

  const INITIAL_QUANTUM := 1000
  const ACCEPTED := 0
  const NOT_ALLOWED := 1
  const EXECUTE_FAILED := 4
  const SELF_TEST_FAILED := 5

  /** A record and the call (identified by its sequence number) that wrote it. */
  datatype Record =
    | Reject(call: nat, action: Action)
    | Intent(call: nat, action: Action)
    | ApplyOk(call: nat, action: Action)
    | ApplyFail(call: nat, action: Action, code: nat)

  datatype Pc =
    | AtGate | AtValidate | AtLock | AtRead
    | AtIntent(before: nat) | AtExecute(before: nat) | AtSelfTest(before: nat)
    | AtCommit | AtRollback(before: nat) | AtFail(code: nat) | AtRelease(code: nat)
    | Done(code: nat)

  /** bornReady: the system was ready when the call was made. */
  datatype Call = Call(action: Action, bornReady: bool, pc: Pc)

  datatype Sys = Sys(ready: bool, lock: Option<nat>, quantum: nat, journal: seq<Record>, calls: map<nat, Call>)

  datatype Event = Propose(id: nat, action: Action) | SetReady | Move(id: nat, selfTest: bool)

  function Init(): Sys {
    Sys(false, None, INITIAL_QUANTUM, [], map[])
  }

  /** The quantum after executing an action. */
  function Effect(a: Action, quantum: nat): nat {
    if a.kind == SET_QUANTUM then a.param1 % U32_RANGE else quantum
  }

  /** What a step of a call can change: its own place, the lock, the quantum, the journal. */
  datatype Local = Local(pc: Pc, lock: Option<nat>, quantum: nat, journal: seq<Record>)

  function LocalStep(ready: bool, id: nat, a: Action, selfTest: bool, l: Local): Local {
    match l.pc
    case AtGate =>
      if !ready then l.(pc := Done(NOT_ALLOWED), journal := l.journal + [Reject(id, a)])
      else l.(pc := AtValidate)
    case AtValidate =>
      if !IsAllowed(a.kind) || !ValidateParams(a)
      then l.(pc := Done(NOT_ALLOWED), journal := l.journal + [Reject(id, a)])
      else l.(pc := AtLock)
    case AtLock => if l.lock.Some? then l else l.(pc := AtRead, lock := Some(id))
    case AtRead => l.(pc := AtIntent(l.quantum))
    case AtIntent(before) => l.(pc := AtExecute(before), journal := l.journal + [Intent(id, a)])
    case AtExecute(before) =>
      if a.kind == SET_QUANTUM then l.(pc := AtSelfTest(before), quantum := a.param1 % U32_RANGE)
      else if a.kind == TRIM_CACHE then l.(pc := AtSelfTest(before))
      else l.(pc := AtFail(EXECUTE_FAILED))
    case AtSelfTest(before) => l.(pc := if selfTest then AtCommit else AtRollback(before))
    case AtCommit => l.(pc := AtRelease(ACCEPTED), journal := l.journal + [ApplyOk(id, a)])
    case AtRollback(before) => l.(pc := AtFail(SELF_TEST_FAILED), quantum := before)
    case AtFail(code) => l.(pc := AtRelease(code), journal := l.journal + [ApplyFail(id, a, code)])
    case AtRelease(code) => l.(pc := Done(code), lock := None)
    case Done(_) => l
  }

  /** The state in which call id is c at the place, and with the shared values, of l. */
  function With(s: Sys, id: nat, c: Call, l: Local): Sys {
    Sys(s.ready, l.lock, l.quantum, l.journal, s.calls[id := c.(pc := l.pc)])
  }

  function Step(s: Sys, id: nat, selfTest: bool): Sys
    requires id in s.calls
  {
    var c := s.calls[id];
    With(s, id, c, LocalStep(s.ready, id, c.action, selfTest, Local(c.pc, s.lock, s.quantum, s.journal)))
  }

  function Next(s: Sys, e: Event): Sys {
    match e
    case Propose(id, a) => if id in s.calls then s else s.(calls := s.calls[id := Call(a, s.ready, AtGate)])
    case SetReady => s.(ready := true)
    case Move(id, ok) => if id in s.calls then Step(s, id, ok) else s
  }

  function Run(s: Sys, events: seq<Event>): Sys
    decreases |events|
  {
    if events == [] then s else Run(Next(s, events[0]), events[1..])
  }

  // ---- what a journal says ----

  function Last(j: seq<Record>): Record
    requires j != []
  {
    j[|j| - 1]
  }

  function Front(j: seq<Record>): seq<Record>
    requires j != []
  {
    j[..|j| - 1]
  }

  /** The quantum of the last committed SetQuantum, or the initial one. */
  function Committed(j: seq<Record>): nat {
    if j == [] then INITIAL_QUANTUM
    else if Last(j).ApplyOk? then Effect(Last(j).action, Committed(Front(j)))
    else Committed(Front(j))
  }

  /** Reading a journal as transactions: between an intent and its own conclusion nothing
      but rejections may stand. */
  datatype Scan = Closed | Open(call: nat) | Broken

  function ReadOn(before: Scan, r: Record): Scan {
    match r
    case Reject(_, _) => before
    case Intent(c, _) => if before == Closed then Open(c) else Broken
    case ApplyOk(c, _) => if before == Open(c) then Closed else Broken
    case ApplyFail(c, _, _) => if before == Open(c) then Closed else Broken
  }

  function Read(j: seq<Record>): Scan {
    if j == [] then Closed
    else ReadOn(Read(Front(j)), Last(j))
  }

  /** The records of one call. */
  function RecordsOf(j: seq<Record>, id: nat): seq<Record> {
    if j == [] then []
    else RecordsOf(Front(j), id) + if Last(j).call == id then [Last(j)] else []
  }

  predicate OnlyRejects(j: seq<Record>) {
    forall i :: 0 <= i < |j| ==> j[i].Reject?
  }

  /** What one more record does to everything a journal says. */
  lemma Appended(j: seq<Record>, r: Record, id: nat)
    ensures Committed(j + [r]) == if r.ApplyOk? then Effect(r.action, Committed(j)) else Committed(j)
    ensures Read(j + [r]) == ReadOn(Read(j), r)
    ensures RecordsOf(j + [r], id) == RecordsOf(j, id) + if r.call == id then [r] else []
    ensures OnlyRejects(j + [r]) <==> OnlyRejects(j) && r.Reject?
  {
    assert Front(j + [r]) == j && Last(j + [r]) == r;
    if OnlyRejects(j + [r]) {
      assert (j + [r])[|j|] == r;
      forall i | 0 <= i < |j| ensures j[i].Reject? { assert (j + [r])[i] == j[i]; }
    }
  }

  // ---- the invariant ----

  predicate Holding(pc: Pc) {
    !pc.AtGate? && !pc.AtValidate? && !pc.AtLock? && !pc.Done?
  }

  predicate InTransaction(pc: Pc) {
    pc.AtExecute? || pc.AtSelfTest? || pc.AtCommit? || pc.AtRollback? || pc.AtFail?
  }

  /** What a call has written by the time it stands at pc. */
  function Expected(id: nat, a: Action, pc: Pc): seq<Record> {
    match pc
    case AtRelease(code) =>
      [Intent(id, a), if code == ACCEPTED then ApplyOk(id, a) else ApplyFail(id, a, code)]
    case Done(code) =>
      if code == NOT_ALLOWED then [Reject(id, a)]
      else [Intent(id, a), if code == ACCEPTED then ApplyOk(id, a) else ApplyFail(id, a, code)]
    case _ => if InTransaction(pc) then [Intent(id, a)] else []
  }

  predicate InRange(q: nat) {
    100 <= q <= 50_000
  }

  /** The quantum in memory, relative to the committed one. */
  predicate QuantumMatches(quantum: nat, committed: nat, a: Action, pc: Pc) {
    match pc
    case AtIntent(before) => before == committed && quantum == committed
    case AtExecute(before) => before == committed && quantum == committed
    case AtSelfTest(before) => before == committed && quantum == Effect(a, committed)
    case AtCommit => quantum == Effect(a, committed)
    case AtRollback(before) => before == committed
    case _ => quantum == committed
  }

  predicate CallInv(s: Sys, id: nat, c: Call) {
    && (Holding(c.pc) <==> s.lock == Some(id))
    && (Holding(c.pc) || c.pc.AtLock? || (c.pc.Done? && c.pc.code != NOT_ALLOWED) ==> Admissible(c.action))
    && (c.pc.AtFail? ==> c.pc.code == SELF_TEST_FAILED)
    && (c.pc.AtRelease? ==> c.pc.code == ACCEPTED || c.pc.code == SELF_TEST_FAILED)
    && (c.pc.Done? ==> c.pc.code == ACCEPTED || c.pc.code == NOT_ALLOWED || c.pc.code == SELF_TEST_FAILED)
    && (c.bornReady ==> s.ready && (Admissible(c.action) ==> c.pc != Done(NOT_ALLOWED)))
    && (!s.ready ==> c.pc.AtGate? || c.pc == Done(NOT_ALLOWED))
    && RecordsOf(s.journal, id) == Expected(id, c.action, c.pc)
    && (s.lock == Some(id) ==> QuantumMatches(s.quantum, Committed(s.journal), c.action, c.pc))
    && (s.lock == Some(id) ==> Read(s.journal) == if InTransaction(c.pc) then Open(id) else Closed)
  }

  predicate SharedInv(s: Sys) {
    && InRange(s.quantum) && InRange(Committed(s.journal))
    && (s.lock.Some? ==> s.lock.value in s.calls)
    && (s.lock.None? ==> s.quantum == Committed(s.journal) && Read(s.journal) == Closed)
    && (!s.ready ==> OnlyRejects(s.journal) && s.quantum == INITIAL_QUANTUM)
  }

  ghost predicate Inv(s: Sys) {
    && SharedInv(s)
    && (forall id :: id in s.calls ==> CallInv(s, id, s.calls[id]))
    && (forall id :: id !in s.calls ==> RecordsOf(s.journal, id) == [])
  }

  /** Steps of a call seen by the others: the lock is theirs or nobody's, and their own
      records, the committed quantum and the reading do not move while they hold it. */
  predicate Quiet(s: Sys, s': Sys, id: nat, other: nat) {
    && s'.ready == s.ready
    && RecordsOf(s'.journal, other) == RecordsOf(s.journal, other)
    && (s'.lock == Some(other) <==> s.lock == Some(other))
    && (s.lock == Some(other) ==>
          && s'.quantum == s.quantum && Committed(s'.journal) == Committed(s.journal)
          && Read(s'.journal) == Read(s.journal))
  }

  lemma OthersKeep(s: Sys, s': Sys, id: nat, other: nat)
    requires other in s.calls && CallInv(s, other, s.calls[other]) && Quiet(s, s', id, other)
    ensures CallInv(s', other, s.calls[other])
  {
  }

  /** The record the step of a call at this point may write. */
  function NextRecord(id: nat, c: Call): Record {
    match c.pc
    case AtIntent(_) => Intent(id, c.action)
    case AtCommit => ApplyOk(id, c.action)
    case AtFail(code) => ApplyFail(id, c.action, code)
    case _ => Reject(id, c.action)
  }

  lemma StepIsQuiet(s: Sys, id: nat, ok: bool, other: nat)
    requires id in s.calls && CallInv(s, id, s.calls[id]) && other != id
    ensures Quiet(s, Step(s, id, ok), id, other)
  {
    hide Committed, Read, RecordsOf, OnlyRejects, Admissible, Effect, Expected, QuantumMatches;
    Appended(s.journal, NextRecord(id, s.calls[id]), other);
  }

  /** The call that moves keeps its own part, and the shared part holds again. */
  lemma MoverKeeps(s: Sys, id: nat, ok: bool)
    requires id in s.calls && SharedInv(s) && CallInv(s, id, s.calls[id])
    ensures var s' := Step(s, id, ok);
      SharedInv(s') && id in s'.calls && CallInv(s', id, s'.calls[id])
  {
    hide Committed, Read, RecordsOf, OnlyRejects;
    if Holding(s.calls[id].pc) { HolderKeeps(s, id, ok); } else { WaiterKeeps(s, id, ok); }
  }

  lemma WaiterKeeps(s: Sys, id: nat, ok: bool)
    requires id in s.calls && SharedInv(s) && CallInv(s, id, s.calls[id]) && !Holding(s.calls[id].pc)
    ensures var s' := Step(s, id, ok);
      SharedInv(s') && id in s'.calls && CallInv(s', id, s'.calls[id])
  {
    hide Committed, Read, RecordsOf, OnlyRejects, Effect;
    Appended(s.journal, NextRecord(id, s.calls[id]), id);
  }

  lemma HolderKeeps(s: Sys, id: nat, ok: bool)
    requires id in s.calls && SharedInv(s) && CallInv(s, id, s.calls[id]) && Holding(s.calls[id].pc)
    ensures var s' := Step(s, id, ok);
      SharedInv(s') && id in s'.calls && CallInv(s', id, s'.calls[id])
  {
    hide Committed, Read, RecordsOf, OnlyRejects;
    var pc := s.calls[id].pc;
    if pc.AtIntent? || pc.AtCommit? || pc.AtFail? { LoggerKeeps(s, id, ok); } else { SilentKeeps(s, id, ok); }
  }

  /** Steps that write a record. */
  lemma LoggerKeeps(s: Sys, id: nat, ok: bool)
    requires id in s.calls && SharedInv(s) && CallInv(s, id, s.calls[id])
    requires s.calls[id].pc.AtIntent? || s.calls[id].pc.AtCommit? || s.calls[id].pc.AtFail?
    ensures var s' := Step(s, id, ok);
      SharedInv(s') && id in s'.calls && CallInv(s', id, s'.calls[id])
  {
    hide Committed, Read, RecordsOf, OnlyRejects;
    Appended(s.journal, NextRecord(id, s.calls[id]), id);
  }

  /** Steps of the lock's holder that write none. */
  lemma SilentKeeps(s: Sys, id: nat, ok: bool)
    requires id in s.calls && SharedInv(s) && CallInv(s, id, s.calls[id]) && Holding(s.calls[id].pc)
    requires !s.calls[id].pc.AtIntent? && !s.calls[id].pc.AtCommit? && !s.calls[id].pc.AtFail?
    ensures var s' := Step(s, id, ok);
      SharedInv(s') && id in s'.calls && CallInv(s', id, s'.calls[id])
  {
    hide Committed, Read, RecordsOf, OnlyRejects;
  }

  lemma StepFrame(s: Sys, id: nat, ok: bool)
    requires id in s.calls
    ensures var s' := Step(s, id, ok);
      && s'.calls.Keys == s.calls.Keys
      && forall other :: other in s.calls && other != id ==> s'.calls[other] == s.calls[other]
  {
  }

  lemma StepKeeps(s: Sys, id: nat, ok: bool)
    requires Inv(s) && id in s.calls
    ensures Inv(Step(s, id, ok))
  {
    hide CallInv, SharedInv, RecordsOf, Step;
    var s' := Step(s, id, ok);
    MoverKeeps(s, id, ok);
    StepFrame(s, id, ok);
    forall other | other in s'.calls ensures CallInv(s', other, s'.calls[other]) {
      if other != id {
        StepIsQuiet(s, id, ok, other);
        OthersKeep(s, s', id, other);
      }
    }
    forall other | other !in s'.calls ensures RecordsOf(s'.journal, other) == [] {
      StepIsQuiet(s, id, ok, other);
    }
  }

  lemma NextKeeps(s: Sys, e: Event)
    requires Inv(s)
    ensures Inv(Next(s, e))
  {
    match e
    case Propose(id, a) =>
      var s' := Next(s, e);
      hide Committed, Read, RecordsOf, OnlyRejects, Admissible;
      forall other | other in s'.calls ensures CallInv(s', other, s'.calls[other]) {
        if other in s.calls { assert CallInv(s, other, s.calls[other]); }
      }
    case SetReady =>
      var s' := Next(s, e);
      hide Committed, Read, RecordsOf, OnlyRejects, Admissible;
      forall other | other in s'.calls ensures CallInv(s', other, s'.calls[other]) {
        assert CallInv(s, other, s.calls[other]);
      }
    case Move(id, ok) => if id in s.calls { StepKeeps(s, id, ok); }
  }

  lemma {:induction false} RunKeeps(s: Sys, events: seq<Event>)
    requires Inv(s)
    ensures Inv(Run(s, events))
    decreases |events|
  {
    hide Inv;
    if events != [] {
      NextKeeps(s, events[0]);
      RunKeeps(Next(s, events[0]), events[1..]);
    }
  }

  // ---- what the quantum is, by the records alone ----

  predicate SetsQuantum(r: Record) {
    r.ApplyOk? && r.action.kind == 1
  }

  /** Record i is the last commit of a SetQuantum. */
  predicate LastSet(j: seq<Record>, i: nat) {
    i < |j| && SetsQuantum(j[i]) && forall k :: i < k < |j| ==> !SetsQuantum(j[k])
  }

  /** The quantum is the low word of the last committed parameter; with none committed it is
      the one the kernel starts with. */
  ghost predicate QuantumByRecords(j: seq<Record>, quantum: nat) {
    || (exists i :: 0 <= i < |j| && LastSet(j, i) && quantum == j[i].action.param1 % 0x1_0000_0000)
    || (quantum == 1000 && forall i :: 0 <= i < |j| ==> !SetsQuantum(j[i]))
  }

  lemma {:induction false} CommittedMeaning(j: seq<Record>)
    ensures QuantumByRecords(j, Committed(j))
  {
    hide QuantumByRecords;
    if j == [] {
      NoRecords();
    } else {
      var r := Last(j);
      CommittedMeaning(Front(j));
      assert j == Front(j) + [r];
      OneRecordMore(Front(j), Committed(Front(j)), r);
    }
  }

  lemma NoRecords()
    ensures QuantumByRecords([], 1000)
  {
  }

  lemma OneRecordMore(f: seq<Record>, q: nat, r: Record)
    requires QuantumByRecords(f, q)
    ensures QuantumByRecords(f + [r], if SetsQuantum(r) then r.action.param1 % 0x1_0000_0000 else q)
  {
    hide SetsQuantum;
    var j := f + [r];
    if SetsQuantum(r) {
      assert LastSet(j, |f|);
    } else if exists i :: 0 <= i < |f| && LastSet(f, i) && q == f[i].action.param1 % 0x1_0000_0000 {
      var i :| 0 <= i < |f| && LastSet(f, i) && q == f[i].action.param1 % 0x1_0000_0000;
      assert j[i] == f[i] && LastSet(j, i);
    }
  }

  // ---- the theorems ----

  /** In every run: the quantum is always admissible; whenever the lock is free it is the
      last committed one (as a scan of the journal and as the records themselves say it) and
      the journal reads as complete transactions; the journal never
      reads as anything else than transactions; before readiness nothing but rejections
      is written and the quantum is untouched. */
  lemma TransactionsAreAtomic(events: seq<Event>)
    ensures var s := Run(Init(), events);
      && InRange(s.quantum)
      && (s.lock.None? ==> s.quantum == Committed(s.journal) && Read(s.journal) == Closed)
      && (s.lock.None? ==> QuantumByRecords(s.journal, s.quantum))
      && Read(s.journal) != Broken
      && (!s.ready ==> OnlyRejects(s.journal) && s.quantum == INITIAL_QUANTUM)
  {
    hide QuantumByRecords, Run;
    RunKeeps(Init(), events);
    hide Committed, RecordsOf;
    var s := Run(Init(), events);
    CommittedMeaning(s.journal);
    if s.lock.Some? { assert CallInv(s, s.lock.value, s.calls[s.lock.value]); }
  }

  /** What a finished call has left behind: a rejection and nothing else, or its intent and
      exactly one conclusion, which its outcome code names.  A call made when the system was
      ready, for an admissible action, is never rejected. */
  lemma FinishedCallLeavesItsRecords(events: seq<Event>, id: nat)
    ensures var s := Run(Init(), events);
      id in s.calls && s.calls[id].pc.Done? ==>
        var c := s.calls[id];
        && (c.pc.code == 0 || c.pc.code == 1 || c.pc.code == 5)
        && RecordsOf(s.journal, id) == Expected(id, c.action, c.pc)
        && (c.pc.code != 1 ==> Admissible(c.action))
        && (c.bornReady && Admissible(c.action) ==> c.pc.code == 0 || c.pc.code == 5)
  {
    RunKeeps(Init(), events);
    var s := Run(Init(), events);
    if id in s.calls { assert CallInv(s, id, s.calls[id]); }
  }

  /** Admission is as strict as it has to be: a SetQuantum is admitted if and only if the
      quantum it would leave is in range, a TrimCache if and only if it asks for at least a
      byte and at most 16 MiB, and nothing else ever. */
  lemma AdmissionIsExact(a: Action, q: nat)
    ensures a.kind == 1 ==> (Admissible(a) <==> InRange(Effect(a, q)))
    ensures a.kind == 4 ==> (Admissible(a) <==> 1 <= a.param1 <= 0x100_0000)
    ensures a.kind != 1 && a.kind != 4 ==> !Admissible(a)
  {
  }

  /** A step that rejects changes no shared state but the journal. */
  lemma RejectionChangesNothing(s: Sys, id: nat, ok: bool)
    requires id in s.calls && !s.calls[id].pc.Done? && Step(s, id, ok).calls[id].pc == Done(NOT_ALLOWED)
    requires Inv(s)
    ensures Step(s, id, ok).quantum == s.quantum && Step(s, id, ok).lock == s.lock
    ensures Committed(Step(s, id, ok).journal) == Committed(s.journal)
  {
    hide Committed, Read, RecordsOf, OnlyRejects, Admissible, SharedInv, QuantumMatches, Expected;
    assert CallInv(s, id, s.calls[id]);
    Appended(s.journal, Reject(id, s.calls[id].action), id);
  }

  // ---- one call without interruption ----

  lemma StepIsLocal(s: Sys, id: nat, c: Call, ok: bool, l: Local)
    ensures Step(With(s, id, c, l), id, ok) == With(s, id, c, LocalStep(s.ready, id, c.action, ok, l))
  {
    hide LocalStep;
  }

  function LocalRun(ready: bool, id: nat, a: Action, ok: bool, l: Local, k: nat): Local
    decreases k
  {
    if k == 0 then l else LocalRun(ready, id, a, ok, LocalStep(ready, id, a, ok, l), k - 1)
  }

  function Moves(id: nat, ok: bool, k: nat): seq<Event> {
    seq(k, _ => Move(id, ok))
  }

  lemma {:induction false} RunIsLocal(s: Sys, id: nat, c: Call, ok: bool, l: Local, k: nat)
    ensures Run(With(s, id, c, l), Moves(id, ok, k)) == With(s, id, c, LocalRun(s.ready, id, c.action, ok, l, k))
    decreases k
  {
    hide Step, LocalStep;
    if k > 0 {
      assert Moves(id, ok, k)[1..] == Moves(id, ok, k - 1);
      StepIsLocal(s, id, c, ok, l);
      RunIsLocal(s, id, c, ok, LocalStep(s.ready, id, c.action, ok, l), k - 1);
    }
  }

  /** A call and all its steps, with nobody else moving. */
  function Solo(id: nat, a: Action, ok: bool): seq<Event> {
    [Propose(id, a)] + Moves(id, ok, 10)
  }

  /** The code an uninterrupted call ends with. */
  function SoloCode(ready: bool, a: Action, ok: bool): nat {
    if !ready || !Admissible(a) then NOT_ALLOWED else if ok then ACCEPTED else SELF_TEST_FAILED
  }

  /** Where an uninterrupted call leaves everything, from a free lock. */
  function SoloEnd(s: Sys, id: nat, a: Action, ok: bool): Sys {
    var code := SoloCode(s.ready, a, ok);
    With(s, id, Call(a, s.ready, AtGate),
         Local(Done(code), None, if code == ACCEPTED then Effect(a, s.quantum) else s.quantum,
               s.journal + Expected(id, a, Done(code))))
  }

  lemma SoloLocal(ready: bool, id: nat, a: Action, ok: bool, q: nat, j: seq<Record>)
    ensures var code := SoloCode(ready, a, ok);
      LocalRun(ready, id, a, ok, Local(AtGate, None, q, j), 10) ==
      Local(Done(code), None, if code == ACCEPTED then Effect(a, q) else q, j + Expected(id, a, Done(code)))
  {
    var l1 := LocalStep(ready, id, a, ok, Local(AtGate, None, q, j));
    var l2 := LocalStep(ready, id, a, ok, l1);
    if !ready || !Admissible(a) {
      assert l2 == Local(Done(NOT_ALLOWED), None, q, j + [Reject(id, a)]);
      DoneStays(ready, id, a, ok, l2, 8);
      assert LocalRun(ready, id, a, ok, l2, 8) == l2;
    } else {
      assert l2 == Local(AtLock, None, q, j);
      TwoMore(ready, id, a, ok, Local(AtGate, None, q, j), 8);
      SoloLocked(ready, id, a, ok, q, j);
    }
    TwoMore(ready, id, a, ok, Local(AtGate, None, q, j), 8);
  }

  lemma TwoMore(ready: bool, id: nat, a: Action, ok: bool, l: Local, k: nat)
    ensures LocalRun(ready, id, a, ok, l, k + 2) ==
            LocalRun(ready, id, a, ok, LocalStep(ready, id, a, ok, LocalStep(ready, id, a, ok, l)), k)
  {
    hide LocalStep;
  }

  lemma {:induction false} DoneStays(ready: bool, id: nat, a: Action, ok: bool, l: Local, k: nat)
    requires l.pc.Done?
    ensures LocalRun(ready, id, a, ok, l, k) == l
  {
    if k > 0 { DoneStays(ready, id, a, ok, l, k - 1); }
  }

  /** From the lock on. */
  lemma SoloLocked(ready: bool, id: nat, a: Action, ok: bool, q: nat, j: seq<Record>)
    requires Admissible(a)
    ensures var code := if ok then ACCEPTED else SELF_TEST_FAILED;
      LocalRun(ready, id, a, ok, Local(AtLock, None, q, j), 8) ==
      Local(Done(code), None, if ok then Effect(a, q) else q, j + Expected(id, a, Done(code)))
  {
    var e, j1 := Effect(a, q), j + [Intent(id, a)];
    var l0 := Local(AtLock, None, q, j);
    var l2 := Local(AtIntent(q), Some(id), q, j);
    var l4 := Local(AtSelfTest(q), Some(id), e, j1);
    assert l2 == LocalStep(ready, id, a, ok, LocalStep(ready, id, a, ok, l0));
    assert l4 == LocalStep(ready, id, a, ok, LocalStep(ready, id, a, ok, l2));
    TwoMore(ready, id, a, ok, l0, 6);
    TwoMore(ready, id, a, ok, l2, 4);
    TwoMore(ready, id, a, ok, l4, 2);
    SoloTail(ready, id, a, ok, q, j);
  }

  /** From the self-test on. */
  lemma SoloTail(ready: bool, id: nat, a: Action, ok: bool, q: nat, j: seq<Record>)
    ensures var code := if ok then ACCEPTED else SELF_TEST_FAILED;
      LocalRun(ready, id, a, ok, Local(AtSelfTest(q), Some(id), Effect(a, q), j + [Intent(id, a)]), 4) ==
      Local(Done(code), None, if ok then Effect(a, q) else q, j + Expected(id, a, Done(code)))
  {
    hide Effect;
    var e, j1 := Effect(a, q), j + [Intent(id, a)];
    var l4 := Local(AtSelfTest(q), Some(id), e, j1);
    TwoMore(ready, id, a, ok, l4, 2);
    if ok {
      TwoMore(ready, id, a, ok, Local(AtRelease(ACCEPTED), Some(id), e, j1 + [ApplyOk(id, a)]), 0);
      assert j1 + [ApplyOk(id, a)] == j + Expected(id, a, Done(ACCEPTED));
    } else {
      TwoMore(ready, id, a, ok, Local(AtFail(SELF_TEST_FAILED), Some(id), q, j1), 0);
      assert j1 + [ApplyFail(id, a, SELF_TEST_FAILED)] == j + Expected(id, a, Done(SELF_TEST_FAILED));
    }
  }

  lemma SoloRun(s: Sys, id: nat, a: Action, ok: bool)
    requires s.lock.None? && id !in s.calls
    ensures Run(s, Solo(id, a, ok)) == SoloEnd(s, id, a, ok)
    ensures Run(s, Solo(id, a, ok)).quantum ==
            if s.ready && Admissible(a) && ok && a.kind == 1 then a.param1 % 0x1_0000_0000 else s.quantum
  {
    hide LocalRun, Step;
    assert Solo(id, a, ok)[1..] == Moves(id, ok, 10);
    RunIsLocal(s, id, Call(a, s.ready, AtGate), ok, Local(AtGate, None, s.quantum, s.journal), 10);
    SoloLocal(s.ready, id, a, ok, s.quantum, s.journal);
  }

  // ---- the functions themselves, for one caller ----

  /** The static variables of the module, its journal and the calls that were made. */
  class Kernel {
    var ready: bool
    var quantum: nat
    var nextSeq: nat
    var journal: seq<Record>
    ghost var calls: map<nat, Call>

    ghost function State(): Sys
      reads this
    {
      Sys(ready, None, quantum, journal, calls)
    }

    constructor ()
      ensures State() == Init() && nextSeq == 0
    {
      ready, quantum, nextSeq, journal, calls := false, INITIAL_QUANTUM, 0, [], map[];
    }

    method SetSystemReady()
      modifies this`ready
      ensures ready
    {
      ready := true;
    }

    /** The outcome decides everything: a rejection leaves one record and no change, a
        commit leaves two records and the action's effect, a rollback two and no effect.
        The call is a run of the step system. */
    method ApplyActionAtomic(id: nat, a: Action, selfTest: bool) returns (code: nat)
      requires id !in calls
      modifies this`quantum, this`journal, this`calls
      ensures State() == Run(old(State()), Solo(id, a, selfTest))
      ensures calls == old(calls)[id := Call(a, ready, Done(code))]
      ensures code == if !ready || !Admissible(a) then 1 else if selfTest then 0 else 5
      ensures journal == old(journal) + Expected(id, a, Done(code))
      ensures quantum == if code == ACCEPTED then Effect(a, old(quantum)) else old(quantum)
      ensures code == 0 && a.kind == 1 ==> quantum == a.param1 % 0x1_0000_0000
      ensures code != 0 || a.kind != 1 ==> quantum == old(quantum)
      ensures old(quantum) == Committed(old(journal)) ==> quantum == Committed(journal)
      ensures old(Read(journal)) == Closed ==> Read(journal) == Closed
    {
      hide Run, Solo, Committed, Read, RecordsOf, OnlyRejects;
      ghost var s, j := State(), journal;
      SoloRun(s, id, a, selfTest);
      Appended(j, Reject(id, a), id);
      Appended(j, Intent(id, a), id);
      Appended(j + [Intent(id, a)], ApplyOk(id, a), id);
      Appended(j + [Intent(id, a)], ApplyFail(id, a, SELF_TEST_FAILED), id);
      code := NOT_ALLOWED;
      if !ready {
        journal := journal + [Reject(id, a)];
      } else if !IsAllowed(a.kind) || !ValidateParams(a) {
        journal := journal + [Reject(id, a)];
      } else {
        var before := quantum;
        journal := journal + [Intent(id, a)];
        if a.kind == SET_QUANTUM {
          quantum := a.param1 % U32_RANGE;
        }
        if selfTest {
          journal := journal + [ApplyOk(id, a)];
          code := ACCEPTED;
        } else {
          quantum := before;
          journal := journal + [ApplyFail(id, a, SELF_TEST_FAILED)];
          code := SELF_TEST_FAILED;
        }
      }
      assert journal == j + Expected(id, a, Done(code));
      calls := calls[id := Call(a, ready, Done(code))];
    }

    /** `ai_propose_action`: -1 for a null pointer, and then nothing has happened. */
    method AiProposeAction(action: Option<Action>, outcomeIsNull: bool, selfTest: bool)
      returns (status: int, outcome: Option<nat>)
      requires nextSeq !in calls
      modifies this`quantum, this`journal, this`calls, this`nextSeq
      ensures status == -1 <==> action.None? || outcomeIsNull
      ensures status == -1 ==> outcome == None && State() == old(State()) && nextSeq == old(nextSeq)
      ensures status != -1 ==>
        && status == 0 && outcome.Some? && nextSeq == (old(nextSeq) + 1) % U64_RANGE
        && State() == Run(old(State()), Solo(old(nextSeq), action.value, selfTest))
        && journal == old(journal) + Expected(old(nextSeq), action.value, Done(outcome.value))
        && outcome.value == (if !ready || !Admissible(action.value) then 1 else if selfTest then 0 else 5)
        && quantum == if outcome.value == 0 && action.value.kind == 1
                      then action.value.param1 % 0x1_0000_0000 else old(quantum)
    {
      hide Run, Solo, Expected;
      if action.None? || outcomeIsNull { return -1, None; }
      var id := nextSeq;
      nextSeq := (nextSeq + 1) % U64_RANGE;
      var code := ApplyActionAtomic(id, action.value, selfTest);
      return 0, Some(code);
    }
  }
}
