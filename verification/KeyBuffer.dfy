/** The key buffer: a ring of bytes with one pusher (the interrupt handler) and one
    popper (the shell).  Each load, byte access and index store is one step, and the
    steps of the two sides interleave in any order (sequentially consistent). */
module KeyBuffer {
  import opened Bytes
  import opened RingArithmetic

  datatype Pusher =
    | PIdle
    | PGotHead(b: Byte, head: nat)                         // KHEAD loaded
    | PGotTail(b: Byte, head: nat, tail: nat, seen: nat)   // KTAIL loaded when `seen` bytes were popped
    | PWritten(b: Byte, head: nat)                         // byte in place, KHEAD not yet stored

  datatype Popper =
    | CIdle
    | CGotTail(tail: nat)                                  // KTAIL loaded
    | CGotHead(tail: nat, head: nat, seen: nat)            // KHEAD loaded when `seen` bytes were accepted
    | CRead(tail: nat, b: Byte)                            // byte read, KTAIL not yet stored

  /** Histories: the arguments of all pushes begun, which of the finished ones were kept,
      the bytes accepted and the bytes popped. */
  datatype Sys = Sys(kbuf: seq<Byte>, khead: nat, ktail: nat, pusher: Pusher, popper: Popper,
                     offered: seq<Byte>, kept: seq<bool>, accepted: seq<Byte>, popped: seq<Byte>)

  datatype Action = Push(b: Byte) | PushStep | PopStep

  function Init(c: nat): Sys {
    Sys(seq(c, _ => 0), 0, 0, PIdle, CIdle, [], [], [], [])
  }

  predicate Shape(s: Sys) {
    && 0 < |s.kbuf|
    && (s.pusher.PGotTail? ==> s.pusher.head < |s.kbuf|)
    && (s.popper.CGotHead? ==> s.popper.tail < |s.kbuf|)
    && s.khead < |s.kbuf| && s.ktail < |s.kbuf|
    && (s.pusher.PGotHead? ==> s.pusher.head < |s.kbuf|)
    && (s.popper.CGotTail? ==> s.popper.tail < |s.kbuf|)
  }

  function PusherStep(s: Sys): Sys
    requires Shape(s)
  {
    match s.pusher
    case PIdle => s
    case PGotHead(b, head) => s.(pusher := PGotTail(b, head, s.ktail, |s.popped|))
    case PGotTail(b, head, tail, _) =>
      if (head + 1) % |s.kbuf| == tail then s.(pusher := PIdle, kept := s.kept + [false])   // dropped
      else s.(pusher := PWritten(b, head), kbuf := s.kbuf[head := b])
    case PWritten(b, head) =>
      s.(pusher := PIdle, khead := (head + 1) % |s.kbuf|, kept := s.kept + [true], accepted := s.accepted + [b])
  }

  function PopperStep(s: Sys): Sys
    requires Shape(s)
  {
    match s.popper
    case CIdle => s.(popper := CGotTail(s.ktail))
    case CGotTail(tail) => s.(popper := CGotHead(tail, s.khead, |s.accepted|))
    case CGotHead(tail, head, _) =>
      if tail == head then s.(popper := CIdle)                    // returns None
      else s.(popper := CRead(tail, s.kbuf[tail]))
    case CRead(tail, b) =>
      s.(popper := CIdle, ktail := (tail + 1) % |s.kbuf|, popped := s.popped + [b])
  }

  function Next(s: Sys, a: Action): (r: Sys)
    requires Shape(s)
    ensures Shape(r) && |r.kbuf| == |s.kbuf|
  {
    match a
    case Push(b) => if s.pusher.PIdle? then s.(pusher := PGotHead(b, s.khead), offered := s.offered + [b]) else s
    case PushStep => PusherStep(s)
    case PopStep => PopperStep(s)
  }

  function Run(s: Sys, actions: seq<Action>): (r: Sys)
    requires Shape(s)
    ensures Shape(r) && |r.kbuf| == |s.kbuf|
    decreases |actions|
  {
    if actions == [] then s else Run(Next(s, actions[0]), actions[1..])
  }

  // ---- the invariant ----

  ghost predicate Live(kbuf: seq<Byte>, accepted: seq<Byte>, from: nat) {
    0 < |kbuf| && forall i :: from <= i < |accepted| ==> kbuf[i % |kbuf|] == accepted[i]
  }

  predicate PusherInv(s: Sys)
    requires Shape(s)
  {
    var c, h, t := |s.kbuf|, |s.accepted|, |s.popped|;
    match s.pusher
    case PIdle => true
    case PGotHead(_, head) => head == s.khead
    case PGotTail(_, head, tail, seen) =>
      head == s.khead && seen <= t && h < seen + c && tail == seen % c
    case PWritten(b, head) =>
      head == s.khead && h + 1 < t + c && s.kbuf[head] == b
  }

  predicate PopperInv(s: Sys)
    requires Shape(s)
  {
    var c, h, t := |s.kbuf|, |s.accepted|, |s.popped|;
    match s.popper
    case CIdle => true
    case CGotTail(tail) => tail == s.ktail
    case CGotHead(tail, head, seen) => tail == s.ktail && t <= seen <= h && head == seen % c
    case CRead(tail, b) => tail == s.ktail && t < h && b == s.accepted[t]
  }

  /** The bytes at the places where the flag is set. */
  function Chosen(bytes: seq<Byte>, flags: seq<bool>): seq<Byte>
    requires |bytes| == |flags|
  {
    if flags == [] then []
    else
      var n := |flags| - 1;
      Chosen(bytes[..n], flags[..n]) + if flags[n] then [bytes[n]] else []
  }

  /** Accepted are the offered bytes that were kept; the one on its way is the last offered. */
  predicate PushesInv(s: Sys) {
    && |s.offered| == |s.kept| + (if s.pusher.PIdle? then 0 else 1)
    && s.accepted == Chosen(s.offered[..|s.kept|], s.kept)
    && (!s.pusher.PIdle? ==> s.pusher.b == s.offered[|s.kept|])
  }

  lemma PushEnds(s: Sys, flag: bool)
    requires PushesInv(s) && !s.pusher.PIdle?
    ensures Chosen(s.offered, s.kept + [flag]) == s.accepted + if flag then [s.pusher.b] else []
  {
    assert (s.kept + [flag])[..|s.kept|] == s.kept;
  }

  lemma PusherKeepsPushes(s: Sys)
    requires Shape(s) && PushesInv(s)
    ensures PushesInv(PusherStep(s))
  {
    hide Chosen;
    if !s.pusher.PIdle? {
      PushEnds(s, true);
      PushEnds(s, false);
      assert s.offered[..|s.offered|] == s.offered;
    }
  }

  lemma PushKeepsPushes(s: Sys, b: Byte)
    requires Shape(s) && PushesInv(s)
    ensures PushesInv(Next(s, Push(b)))
  {
    hide Chosen;
    if s.pusher.PIdle? { assert (s.offered + [b])[..|s.kept|] == s.offered[..|s.kept|]; }
  }

  ghost predicate Inv(s: Sys) {
    var c, h, t := |s.kbuf|, |s.accepted|, |s.popped|;
    && Shape(s)
    && t <= h < t + c
    && s.khead == h % c && s.ktail == t % c
    && s.popped == s.accepted[..t]
    && Live(s.kbuf, s.accepted, t)
    && PusherInv(s) && PopperInv(s) && PushesInv(s)
  }

  /** Two counts less than a lap apart are equal exactly when their slots are. */
  lemma SameSlot(i: nat, j: nat, c: nat)
    requires i <= j < i + c
    ensures i % c == j % c <==> i == j
  {
    if i < j { SlotsDistinct(i, j, c); }
  }

  /** The pusher's full test, on the tail it read, is exact for that tail. */
  lemma FullTest(s: Sys)
    requires Inv(s) && s.pusher.PGotTail?
    ensures (s.pusher.head + 1) % |s.kbuf| == s.pusher.tail <==>
            |s.accepted| - s.pusher.seen == |s.kbuf| - 1
  {
    var c, h, seen := |s.kbuf|, |s.accepted|, s.pusher.seen;
    Advance(h, c);
    if h + 1 == seen + c {
      PreviousLap(h + 1, c);
    } else {
      SameSlot(seen, h + 1, c);
    }
  }

  /** The popper's empty test is exact for the head it read. */
  lemma EmptyTest(s: Sys)
    requires Inv(s) && s.popper.CGotHead?
    ensures s.popper.tail == s.popper.head <==> |s.popped| == s.popper.seen
  {
    SameSlot(|s.popped|, s.popper.seen, |s.kbuf|);
  }

  /** Writing the head slot touches no byte still waiting. */
  lemma WriteKeepsLive(kbuf: seq<Byte>, accepted: seq<Byte>, from: nat, b: Byte)
    requires Live(kbuf, accepted, from) && from <= |accepted| < from + |kbuf|
    ensures Live(kbuf[|accepted| % |kbuf| := b], accepted, from)
    ensures from < |accepted| ==> |accepted| % |kbuf| != from % |kbuf|
  {
    forall i | from <= i < |accepted|
      ensures i % |kbuf| != |accepted| % |kbuf|
    {
      SlotsDistinct(i, |accepted|, |kbuf|);
    }
  }

  /** Storing the new head accepts the byte that was written. */
  lemma StoreKeeps(s: Sys)
    requires Inv(s) && s.pusher.PWritten?
    ensures Inv(PusherStep(s))
  {
    hide PushesInv;
    var c, h, t, s' := |s.kbuf|, |s.accepted|, |s.popped|, PusherStep(s);
    PusherKeepsPushes(s);
    Advance(h, c);
    assert s'.popped == s'.accepted[..t];
    assert Live(s'.kbuf, s'.accepted, t);
    hide Live;
  }

  lemma PusherKeeps(s: Sys)
    requires Inv(s)
    ensures Inv(PusherStep(s))
  {
    hide Live, PushesInv;
    PusherKeepsPushes(s);
    match s.pusher
    case PIdle =>
    case PGotHead(_, _) =>
    case PGotTail(b, _, _, _) =>
      FullTest(s);
      WriteKeepsLive(s.kbuf, s.accepted, |s.popped|, b);
    case PWritten(_, _) => StoreKeeps(s);
  }

  lemma PopperKeepsPushes(s: Sys)
    requires Shape(s) && PushesInv(s)
    ensures PushesInv(PopperStep(s))
  {
  }

  lemma PopperKeepsLive(s: Sys)
    requires Shape(s) && Live(s.kbuf, s.accepted, |s.popped|)
    ensures Live(s.kbuf, s.accepted, |PopperStep(s).popped|)
  {
  }

  lemma PopperKeeps(s: Sys)
    requires Inv(s)
    ensures Inv(PopperStep(s))
  {
    hide Live, PushesInv;
    assert PushesInv(PopperStep(s)) by { PopperKeepsPushes(s); }
    PopperKeepsLive(s);
    match s.popper
    case CIdle =>
    case CGotTail(_) =>
    case CGotHead(_, _, _) => EmptyTest(s);
    case CRead(_, _) => Advance(|s.popped|, |s.kbuf|);
  }

  lemma {:induction false} RunKeeps(s: Sys, actions: seq<Action>)
    requires Inv(s)
    ensures Inv(Run(s, actions))
    decreases |actions|
  {
    if actions != [] {
      match actions[0] {
        case Push(b) => PushKeepsPushes(s, b);
        case PushStep => PusherKeeps(s);
        case PopStep => PopperKeeps(s);
      }
      RunKeeps(Next(s, actions[0]), actions[1..]);
    }
  }

  predicate AboutToWrite(s: Sys)
    requires Shape(s)
  {
    s.pusher.PGotTail? && PusherStep(s).pusher.PWritten?
  }

  predicate AboutToRead(s: Sys)
    requires Shape(s)
  {
    s.popper.CGotHead? && PopperStep(s).popper.CRead?
  }

  /** For every capacity and every interleaving: accepted are exactly those arguments of the
      pushes that were not dropped, in order; what was popped is a prefix of them; at
      most capacity - 1 bytes are held; the slot about to be written is never the slot about
      to be read; a push is dropped exactly when the ring was full for the tail it read, and
      a pop returns nothing exactly when the ring was empty for the head it read. */
  lemma KeyBufferIsSpscQueue(c: nat, actions: seq<Action>)
    requires c > 0
    ensures var s := Run(Init(c), actions);
      && |s.kept| <= |s.offered| <= |s.kept| + 1
      && s.accepted == Chosen(s.offered[..|s.kept|], s.kept)
      && s.popped <= s.accepted
      && |s.accepted| - |s.popped| <= c - 1
      && (s.pusher.PGotTail? ==>
            (PusherStep(s).pusher.PIdle? <==> |s.accepted| - s.pusher.seen == c - 1))
      && (s.popper.CGotHead? ==>
            (PopperStep(s).popper.CIdle? <==> |s.popped| == s.popper.seen))
      && (AboutToWrite(s) && AboutToRead(s) ==> s.pusher.head != s.popper.tail)
  {
    FirstLap(0, c);
    RunKeeps(Init(c), actions);
    var s := Run(Init(c), actions);
    if s.pusher.PGotTail? { FullTest(s); WriteKeepsLive(s.kbuf, s.accepted, |s.popped|, s.pusher.b); }
    if s.popper.CGotHead? { EmptyTest(s); }
  }

  lemma FourSteps(s: Sys, b: Byte)
    requires Shape(s)
    ensures Run(s, [Push(b), PushStep, PushStep, PushStep]) ==
            PusherStep(PusherStep(PusherStep(Next(s, Push(b)))))
  {
    hide PusherStep;
    var s1 := Next(s, Push(b));
    var s2 := Next(s1, PushStep);
    var s3 := Next(s2, PushStep);
    assert Run(s3, [PushStep]) == Next(s3, PushStep);
    assert [PushStep, PushStep][1..] == [PushStep];
    assert [PushStep, PushStep, PushStep][1..] == [PushStep, PushStep];
    assert [Push(b), PushStep, PushStep, PushStep][1..] == [PushStep, PushStep, PushStep];
  }

  lemma FourPops(s: Sys)
    requires Shape(s)
    ensures Run(s, [PopStep, PopStep, PopStep, PopStep]) == PopperStep(PopperStep(PopperStep(PopperStep(s))))
    ensures Run(s, [PopStep, PopStep, PopStep]) == PopperStep(PopperStep(PopperStep(s)))
  {
    hide PopperStep;
    var s1 := Next(s, PopStep);
    var s2 := Next(s1, PopStep);
    var s3 := Next(s2, PopStep);
    assert Run(s3, [PopStep]) == Next(s3, PopStep);
    assert [PopStep, PopStep][1..] == [PopStep];
    assert [PopStep, PopStep, PopStep][1..] == [PopStep, PopStep];
    assert [PopStep, PopStep, PopStep, PopStep][1..] == [PopStep, PopStep, PopStep];
  }

  // ---- the two functions, run without interruption ----

  class Buffer {
    const kbuf: array<Byte>
    var khead: nat
    var ktail: nat
    ghost var offered: seq<Byte>
    ghost var kept: seq<bool>
    ghost var accepted: seq<Byte>
    ghost var popped: seq<Byte>

    ghost function State(): Sys
      reads this, kbuf
    {
      Sys(kbuf[..], khead, ktail, PIdle, CIdle, offered, kept, accepted, popped)
    }

    /** The bytes waiting to be popped. */
    ghost function Contents(): seq<Byte>
      reads this, kbuf
      requires Inv(State())
    {
      accepted[|popped|..]
    }

    constructor (c: nat)
      requires c > 0
      ensures fresh(kbuf) && State() == Init(c) && Inv(State()) && Contents() == []
    {
      kbuf := new Byte[c](_ => 0);
      khead, ktail, offered, kept, accepted, popped := 0, 0, [], [], [], [];
      new;
      FirstLap(0, c);
      assert kbuf[..] == seq(c, _ => 0 as Byte);
    }

    /** Uninterrupted, the push is four steps of the system in a row. */
    method KbufPush(b: Byte)
      requires Inv(State())
      modifies this`khead, this`offered, this`kept, this`accepted, kbuf
      ensures State() == Run(old(State()), [Push(b), PushStep, PushStep, PushStep]) && Inv(State())
      ensures Contents() == if |old(Contents())| < kbuf.Length - 1 then old(Contents()) + [b] else old(Contents())
    {
      hide Live, PushesInv, Run;
      ghost var s := State();
      ghost var held := Contents();
      ghost var s1 := Next(s, Push(b));
      PushKeepsPushes(s, b);
      ghost var s2 := PusherStep(s1);
      PusherKeeps(s1);
      FullTest(s2);
      PusherKeeps(s2);
      PusherKeeps(PusherStep(s2));
      FourSteps(s, b);
      var head := khead;
      var next := (head + 1) % kbuf.Length;
      var tail := ktail;
      if next != tail {
        kbuf[head] := b;
        khead := next;
        accepted := accepted + [b];
      }
      offered, kept := offered + [b], kept + [next != tail];
      assert State() == PusherStep(PusherStep(s2));
      hide Inv, PusherStep;
      assert next != tail ==> Contents() == held + [b];
    }

    method PollChar() returns (r: Option<Byte>)
      requires Inv(State())
      modifies this`ktail, this`popped
      ensures Inv(State())
      ensures State() == Run(old(State()), if r.None? then [PopStep, PopStep, PopStep]
                                           else [PopStep, PopStep, PopStep, PopStep])
      ensures r == if old(Contents()) == [] then None else Some(old(Contents())[0])
      ensures Contents() == if r.None? then old(Contents()) else old(Contents())[1..]
    {
      hide Live, PushesInv, Run;
      ghost var s := State();
      ghost var s2 := PopperStep(PopperStep(s));
      FourPops(s);
      PopperKeeps(s);
      PopperKeeps(PopperStep(s));
      EmptyTest(s2);
      PopperKeeps(s2);
      PopperKeeps(PopperStep(s2));
      var tail := ktail;
      var head := khead;
      if tail == head { return None; }
      var b := kbuf[tail];
      ktail := (tail + 1) % kbuf.Length;
      popped := popped + [b];
      assert State() == PopperStep(PopperStep(s2));
      return Some(b);
    }
  }
}
