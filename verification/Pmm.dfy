/** The physical memory manager: a bump allocator whose pointer is advanced by
    compare-and-exchange, so any number of callers may race. */
module Pmm {
  import opened Bytes
  import opened RingArithmetic

  const PAGE := 4096

  // ---- alignment in 64-bit arithmetic ----

  /** `align & (align - 1) == 0` for a nonzero align. */
  predicate PowerOfTwo(a: nat) {
    a == 1 || (a > 0 && a % 2 == 0 && PowerOfTwo(a / 2))
  }

  function Pow2(k: nat): nat {
    if k == 0 then 1 else 2 * Pow2(k - 1)
  }

  /** The alignments accepted are exactly the powers of two. */
  lemma PowerOfTwoMeaning(a: nat)
    ensures PowerOfTwo(a) <==> exists k: nat :: a == Pow2(k)
  {
    hide PowerOfTwo, Pow2;
    if PowerOfTwo(a) {
      var k := Exponent(a);
    }
    if k: nat :| a == Pow2(k) { PowersPass(k); }
  }

  lemma {:induction false} Exponent(a: nat) returns (k: nat)
    requires PowerOfTwo(a)
    ensures a == Pow2(k)
    decreases a
  {
    k := 0;
    if a > 1 {
      var h := Exponent(a / 2);
      k := h + 1;
    }
  }

  lemma {:induction false} PowersPass(k: nat)
    ensures Pow2(k) > 0 && PowerOfTwo(Pow2(k))
  {
    hide PowerOfTwo;
    One();
    if k > 0 {
      PowersPass(k - 1);
      Doubled(Pow2(k - 1));
    }
  }

  lemma One()
    ensures PowerOfTwo(1)
  {
  }

  lemma Doubled(a: nat)
    requires a > 0 && PowerOfTwo(a)
    ensures PowerOfTwo(2 * a)
  {
    var b := 2 * a;
    DivModUnique(b, 2, a, 0);
    assert PowerOfTwo(b / 2);
  }

  function AlignDown(v: nat, a: nat): (r: nat)
    requires a > 0
    ensures r % a == 0 && r <= v < r + a
  {
    DivModUnique(v - v % a, a, v / a, 0);
    v - v % a
  }

  /** `(value + align - 1) & !(align - 1)`: the sum wraps. */
  function AlignUp(v: nat, a: nat): (r: nat)
    requires a > 0
    ensures r % a == 0
  {
    AlignDown((v + a - 1) % U64_RANGE, a)
  }

  /** The exact condition under which rounding up rounds up. */
  lemma AlignUpIsUpIff(v: nat, a: nat)
    requires 0 < a < U64_RANGE && v < U64_RANGE
    ensures v <= AlignUp(v, a) <==> v + a - 1 < U64_RANGE
    ensures v + a - 1 < U64_RANGE ==> AlignUp(v, a) < v + a
    ensures v + a - 1 < U64_RANGE && v % a == 0 ==> AlignUp(v, a) == v
  {
    if v + a - 1 < U64_RANGE {
      if v % a == 0 { DivModUnique(v + a - 1, a, v / a, a - 1); }
    } else {
      var w := v + a - 1 - U64_RANGE;
      DivModUnique(v + a - 1, U64_RANGE, 1, w);
      DivModUnique(w, a, 0, w);
    }
  }

  /** Where the sum wraps, the result is 0. */
  lemma WrapsToZero(v: nat, a: nat)
    requires 0 < a < U64_RANGE && v < U64_RANGE && v + a - 1 >= U64_RANGE
    ensures AlignUp(v, a) == 0
  {
    var w := v + a - 1 - U64_RANGE;
    DivModUnique(v + a - 1, U64_RANGE, 1, w);
    DivModUnique(w, a, 0, w);
  }

  lemma MultipleOfMultiple(x: nat, a: nat, b: nat)
    requires a > 0 && b > 0 && x % a == 0 && a % b == 0
    ensures x % b == 0
  {
    var q, k := x / a, a / b;
    assert x == q * a == q * (k * b) == (q * k) * b;
    DivModUnique(x, b, q * k, 0);
  }

  lemma SumOfMultiples(x: nat, y: nat, b: nat)
    requires b > 0 && x % b == 0 && y % b == 0
    ensures (x + y) % b == 0
  {
    DivModUnique(x + y, b, x / b + y / b, 0);
  }

  lemma {:induction false} PowersDivide(a: nat, b: nat)
    requires PowerOfTwo(a) && PowerOfTwo(b) && a <= b
    ensures b % a == 0
  {
    if a > 1 {
      PowersDivide(a / 2, b / 2);
      var q := b / 2 / (a / 2);
      assert b / 2 == q * (a / 2);
      assert b == q * a;
      DivModUnique(b, a, q, 0);
    }
  }

  lemma PageIsPower()
    ensures PowerOfTwo(PAGE)
  {
    assert PowerOfTwo(8) && PowerOfTwo(64) && PowerOfTwo(512);
  }

  function Max(a: nat, b: nat): nat {
    if a >= b then a else b
  }

  /** The number of bytes taken for a request. */
  function AdjSize(size: nat, align: nat): nat
    requires align > 0
  {
    AlignUp(size, Max(PAGE, align))
  }

  // ---- the heap and one attempt on it ----

  /** A range handed out, with the call it was handed to and what that call asked for. */
  datatype Grant = Grant(id: nat, addr: nat, len: nat, size: nat, align: nat)

  datatype Heap = Heap(base: nat, nextFree: nat, limit: nat, grants: seq<Grant>)

  /** One of the two roundings of an attempt that sees `current` wraps. */
  predicate Wraps(current: nat, size: nat, align: nat) {
    current + align - 1 >= U64_RANGE || size + Max(PAGE, align) - 1 >= U64_RANGE
  }

  /** What an attempt that saw `current` decides: the address and the new pointer. */
  function Attempt(current: nat, limit: nat, size: nat, align: nat): Option<(nat, nat)>
    requires align > 0
  {
    if current == 0 || current >= limit then None
    else
      var aligned := AlignUp(current, align);
      var end := aligned + AdjSize(size, align);
      if end >= U64_RANGE || end > limit then None else Some((aligned, end))
  }

  /** An attempt is refused exactly when the pointer is 0 or at the limit, or the rounded
      request ends behind the limit; the overflow test adds nothing to that. */
  lemma RefusedIff(current: nat, limit: nat, size: nat, align: nat)
    requires align > 0 && limit < U64_RANGE
    ensures Attempt(current, limit, size, align).None? <==>
            current == 0 || current >= limit || AlignUp(current, align) + AdjSize(size, align) > limit
  {
    hide AlignUp, AdjSize;
  }

  predicate GrantInv(h: Heap, g: Grant) {
    && h.base <= g.addr && g.addr + g.len <= h.nextFree
    && g.align > 0 && g.addr % g.align == 0 && g.size <= g.len == AdjSize(g.size, g.align)
  }

  ghost predicate HeapInv(h: Heap) {
    && h.base <= h.nextFree <= h.limit < U64_RANGE
    && h.base % PAGE == 0 && h.nextFree % PAGE == 0 && (h.base == 0 ==> h.nextFree == 0)
    && (forall i :: 0 <= i < |h.grants| ==> GrantInv(h, h.grants[i]))
    && (forall i, j :: 0 <= i < j < |h.grants| ==> h.grants[i].addr + h.grants[i].len <= h.grants[j].addr)
    && (forall i, j :: 0 <= i < j < |h.grants| ==> h.grants[i].id != h.grants[j].id)
  }

  /** Roundings that do not wrap round up, to whole pages. */
  lemma RoundingsAreSound(current: nat, size: nat, align: nat)
    requires 0 < current && current % PAGE == 0 && PowerOfTwo(align) && !Wraps(current, size, align)
    ensures current <= AlignUp(current, align) < current + align && AlignUp(current, align) % PAGE == 0
    ensures size <= AdjSize(size, align) < size + Max(PAGE, align) && AdjSize(size, align) % PAGE == 0
    ensures align <= PAGE ==> AlignUp(current, align) == current
  {
    hide AlignUp;
    PageIsPower();
    assert align > 0;
    hide PowerOfTwo;
    AlignUpIsUpIff(current, align);
    AlignUpIsUpIff(size, Max(PAGE, align));
    if align <= PAGE {
      PowersDivide(align, PAGE);
      MultipleOfMultiple(current, PAGE, align);
    } else {
      PowersDivide(PAGE, align);
      MultipleOfMultiple(AlignUp(current, align), align, PAGE);
      MultipleOfMultiple(AdjSize(size, align), align, PAGE);
    }
  }

  /** A successful attempt moves forward by whole pages and gives an aligned, big enough
      range in between, skipping less than the alignment and adding less than a unit. */
  lemma AttemptIsSound(current: nat, limit: nat, size: nat, align: nat)
    requires current % PAGE == 0 && limit < U64_RANGE && PowerOfTwo(align) && !Wraps(current, size, align)
    requires Attempt(current, limit, size, align).Some?
    ensures var (aligned, end) := Attempt(current, limit, size, align).value;
      && current <= aligned && aligned % align == 0 && end == aligned + AdjSize(size, align) <= limit
      && end % PAGE == 0 && size <= AdjSize(size, align)
      && aligned < current + align && AdjSize(size, align) < size + (if align > 4096 then align else 4096)
      && (align <= PAGE ==> aligned == current)
  {
    hide AlignUp, AdjSize, Wraps;
    assert align > 0;
    hide PowerOfTwo;
    RoundingsAreSound(current, size, align);
    SumOfMultiples(AlignUp(current, align), AdjSize(size, align), PAGE);
  }

  /** With a wrapping size the code breaks its promise: the smallest heap grants an empty
      range to a request for nearly all of memory. */
  lemma WrappingRequestGetsNothing()
    ensures Attempt(PAGE, 2 * PAGE, U64_RANGE - 1, 1) == Some((PAGE, PAGE))
    ensures Wraps(PAGE, U64_RANGE - 1, 1)
  {
    AlignUpIsUpIff(PAGE, 1);
    DivModUnique(U64_RANGE - 1 + PAGE - 1, U64_RANGE, 1, PAGE - 2);
    DivModUnique(PAGE - 2, PAGE, 0, PAGE - 2);
    assert AdjSize(U64_RANGE - 1, 1) == 0;
    hide AlignUp, AdjSize;
  }

  /** Exactly when an attempt that succeeds is sound: when neither rounding wraps.  A
      wrapped alignment sends the pointer back to 0, a wrapped size grants too little. */
  lemma AttemptIsSoundIff(current: nat, limit: nat, size: nat, align: nat)
    requires current < U64_RANGE && size < U64_RANGE && 0 < align < U64_RANGE
    requires Attempt(current, limit, size, align).Some?
    ensures var (aligned, end) := Attempt(current, limit, size, align).value;
      current <= aligned && aligned + size <= end <==> !Wraps(current, size, align)
  {
    hide AlignUp;
    AlignUpIsUpIff(current, align);
    AlignUpIsUpIff(size, Max(PAGE, align));
  }

  // ---- any number of racing callers ----

  /** One call of alloc_aligned: `first` is the pointer it saw first, `tries` the number of
      exchanges it has lost. */
  datatype Call =
    | AtLoad(size: nat, align: nat, first: nat, tries: nat)
    | AtDecide(size: nat, align: nat, first: nat, tries: nat, current: nat)
    | AtExchange(size: nat, align: nat, first: nat, tries: nat, current: nat, aligned: nat, end: nat)
    | Returned(size: nat, align: nat, result: Option<nat>)

  datatype Sys = Sys(heap: Heap, calls: map<nat, Call>)

  datatype Action = Begin(id: nat, size: nat, align: nat) | Move(id: nat)

  /** Taking the range [aligned, end) for a call. */
  function Give(h: Heap, id: nat, size: nat, align: nat, aligned: nat, end: nat): Heap
    requires align > 0
  {
    h.(nextFree := end, grants := h.grants + [Grant(id, aligned, AdjSize(size, align), size, align)])
  }

  function StepCall(h: Heap, id: nat, c: Call): (Heap, Call)
    requires !c.Returned? ==> c.align > 0
  {
    match c
    case AtLoad(size, align, first, tries) =>
      (h, AtDecide(size, align, first, tries, h.nextFree))
    case AtDecide(size, align, first, tries, current) =>
      var r := Attempt(current, h.limit, size, align);
      (h, if r.None? then Returned(size, align, None)
          else AtExchange(size, align, first, tries, current, r.value.0, r.value.1))
    case AtExchange(size, align, first, tries, current, aligned, end) =>
      if h.nextFree == current
      then (Give(h, id, size, align, aligned, end), Returned(size, align, Some(aligned)))
      else (h, AtLoad(size, align, first, tries + 1))
    case Returned(_, _, _) => (h, c)
  }

  predicate Shape(s: Sys) {
    forall id :: id in s.calls && !s.calls[id].Returned? ==> s.calls[id].align > 0
  }

  function Next(s: Sys, a: Action): (r: Sys)
    requires Shape(s)
    ensures Shape(r)
  {
    match a
    case Begin(id, size, align) =>
      if id in s.calls then s
      else if align == 0 || !PowerOfTwo(align) then s.(calls := s.calls[id := Returned(size, align, None)])
      else s.(calls := s.calls[id := AtLoad(size, align, s.heap.nextFree, 0)])
    case Move(id) =>
      if id !in s.calls then s
      else
        var (h, c) := StepCall(s.heap, id, s.calls[id]);
        Sys(h, s.calls[id := c])
  }

  function Run(s: Sys, actions: seq<Action>): (r: Sys)
    requires Shape(s)
    ensures Shape(r)
    decreases |actions|
  {
    if actions == [] then s else Run(Next(s, actions[0]), actions[1..])
  }

  /** Sizes and alignments are u64 words. */
  predicate IsWord(a: Action) {
    a.Begin? ==> a.size < U64_RANGE && a.align < U64_RANGE
  }

  predicate Words(actions: seq<Action>) {
    forall i :: 0 <= i < |actions| ==> IsWord(actions[i])
  }

  /** This action is not the winning exchange of an attempt with a wrapping rounding. */
  predicate SoundStep(s: Sys, a: Action) {
    a.Move? && a.id in s.calls && s.calls[a.id].AtExchange? && s.heap.nextFree == s.calls[a.id].current ==>
      !Wraps(s.heap.nextFree, s.calls[a.id].size, s.calls[a.id].align)
  }

  /** No attempt with a wrapping rounding wins its exchange in this run. */
  predicate SoundRun(s: Sys, actions: seq<Action>)
    requires Shape(s)
    decreases |actions|
  {
    actions == [] || (SoundStep(s, actions[0]) && SoundRun(Next(s, actions[0]), actions[1..]))
  }

  // ---- the invariant ----

  predicate NoGrantOf(h: Heap, id: nat) {
    forall i :: 0 <= i < |h.grants| ==> h.grants[i].id != id
  }

  /** A call that returned an address owns the grant of that address, for what it asked. */
  predicate HasGrant(h: Heap, id: nat, addr: nat, size: nat, align: nat)
    requires align > 0
  {
    exists i :: 0 <= i < |h.grants| && h.grants[i] == Grant(id, addr, AdjSize(size, align), size, align)
  }

  predicate IsRequest(size: nat, align: nat) {
    PowerOfTwo(align) && size < U64_RANGE && align < U64_RANGE
  }

  predicate CallInv(h: Heap, id: nat, c: Call) {
    match c
    case AtLoad(size, align, first, tries) =>
      NoGrantOf(h, id) && IsRequest(size, align) && first + tries * PAGE <= h.nextFree
    case AtDecide(size, align, first, tries, current) =>
      && NoGrantOf(h, id) && IsRequest(size, align) && current % PAGE == 0
      && first + tries * PAGE <= current <= h.nextFree
    case AtExchange(size, align, first, tries, current, aligned, end) =>
      && NoGrantOf(h, id) && IsRequest(size, align) && current % PAGE == 0 && align > 0
      && first + tries * PAGE <= current <= h.nextFree
      && Attempt(current, h.limit, size, align) == Some((aligned, end))
    case Returned(size, align, r) =>
      if r.Some? then align > 0 && HasGrant(h, id, r.value, size, align) else NoGrantOf(h, id)
  }

  ghost predicate Inv(s: Sys) {
    && Shape(s) && HeapInv(s.heap)
    && (forall id :: id in s.calls ==> CallInv(s.heap, id, s.calls[id]))
    && (forall id :: id !in s.calls ==> NoGrantOf(s.heap, id))
  }

  /** A lost exchange means someone else took at least a page in between. */
  lemma LostExchangeIsProgress(h: Heap, current: nat)
    requires HeapInv(h) && current % PAGE == 0 && current <= h.nextFree && current != h.nextFree
    ensures current + PAGE <= h.nextFree
  {
  }

  /** What a step may do to the heap: nothing, or one grant to the mover. */
  predicate Extends(h: Heap, h': Heap, id: nat) {
    && h'.limit == h.limit && h'.base == h.base && h.nextFree <= h'.nextFree && h.grants <= h'.grants
    && forall i :: |h.grants| <= i < |h'.grants| ==> h'.grants[i].id == id
  }

  lemma GiveKeeps(h: Heap, id: nat, size: nat, align: nat, aligned: nat, end: nat)
    requires HeapInv(h) && PowerOfTwo(align) && !Wraps(h.nextFree, size, align) && NoGrantOf(h, id) && align > 0
    requires Attempt(h.nextFree, h.limit, size, align) == Some((aligned, end))
    ensures var h' := Give(h, id, size, align, aligned, end);
      HeapInv(h') && Extends(h, h', id) && HasGrant(h', id, aligned, size, align)
  {
    hide AdjSize, PowerOfTwo, Wraps, AlignUp;
    AttemptIsSound(h.nextFree, h.limit, size, align);
    assert h.nextFree != 0;
    hide Attempt;
    var h' := Give(h, id, size, align, aligned, end);
    assert h'.grants[|h.grants|] == Grant(id, aligned, AdjSize(size, align), size, align);
    forall i | 0 <= i < |h'.grants| ensures GrantInv(h', h'.grants[i]) {
      if i < |h.grants| { assert GrantInv(h, h.grants[i]); }
    }
  }

  lemma StepCallKeeps(h: Heap, id: nat, c: Call)
    requires HeapInv(h) && CallInv(h, id, c) && (!c.Returned? ==> c.align > 0)
    requires c.AtExchange? && h.nextFree == c.current ==> !Wraps(h.nextFree, c.size, c.align)
    ensures var (h', c') := StepCall(h, id, c);
      && HeapInv(h') && CallInv(h', id, c') && (!c'.Returned? ==> c'.align > 0) && Extends(h, h', id)
      && c'.size == c.size && c'.align == c.align
  {
    hide Attempt, PowerOfTwo, Wraps, AdjSize;
    match c
    case AtExchange(size, align, first, tries, current, aligned, end) =>
      if h.nextFree == current {
        hide HeapInv, HasGrant, Extends;
        GiveKeeps(h, id, size, align, aligned, end);
      } else {
        LostExchangeIsProgress(h, current);
      }
    case AtLoad(_, _, _, _) =>
    case AtDecide(_, _, _, _, _) =>
    case Returned(_, _, _) =>
  }

  lemma OthersUnaffected(h: Heap, h': Heap, id: nat, other: nat, c: Call)
    requires CallInv(h, other, c) && Extends(h, h', id) && other != id
    ensures CallInv(h', other, c)
  {
    hide Attempt, IsRequest, AdjSize;
    if c.Returned? && c.result.Some? {
      var i :| 0 <= i < |h.grants| &&
        h.grants[i] == Grant(other, c.result.value, AdjSize(c.size, c.align), c.size, c.align);
      assert h'.grants[i] == h.grants[i];
    } else {
      StillNoGrant(h, h', id, other);
    }
  }

  lemma StillNoGrant(h: Heap, h': Heap, id: nat, other: nat)
    requires NoGrantOf(h, other) && Extends(h, h', id) && other != id
    ensures NoGrantOf(h', other)
  {
    forall i | 0 <= i < |h'.grants| ensures h'.grants[i].id != other {
      if i < |h.grants| { assert h'.grants[i] == h.grants[i]; }
    }
  }

  predicate Monotone(h: Heap, h': Heap) {
    h'.limit == h.limit && h'.base == h.base && h.nextFree <= h'.nextFree && h.grants <= h'.grants
  }

  lemma NextKeeps(s: Sys, a: Action)
    requires Inv(s) && IsWord(a) && SoundStep(s, a)
    ensures Inv(Next(s, a)) && Monotone(s.heap, Next(s, a).heap)
  {
    hide HeapInv, StepCall, PowerOfTwo, NoGrantOf, HasGrant, Wraps;
    if a.Move? && a.id in s.calls {
      var h, s' := s.heap, Next(s, a);
      StepCallKeeps(h, a.id, s.calls[a.id]);
      forall id | id in s'.calls ensures CallInv(s'.heap, id, s'.calls[id]) {
        if id != a.id { OthersUnaffected(h, s'.heap, a.id, id, s.calls[id]); }
      }
      forall id | id !in s'.calls ensures NoGrantOf(s'.heap, id) {
        StillNoGrant(h, s'.heap, a.id, id);
      }
    }
  }

  lemma {:induction false} RunKeeps(s: Sys, actions: seq<Action>)
    requires Inv(s) && Words(actions) && SoundRun(s, actions)
    ensures Inv(Run(s, actions)) && Monotone(s.heap, Run(s, actions).heap)
    decreases |actions|
  {
    hide SoundStep, IsWord, HeapInv, CallInv, NoGrantOf, Next;
    if actions != [] {
      NextKeeps(s, actions[0]);
      RunKeeps(Next(s, actions[0]), actions[1..]);
    }
  }

  predicate FreshHeap(h: Heap) {
    h.base == h.nextFree <= h.limit < U64_RANGE && h.base % PAGE == 0 && h.grants == []
  }

  // ---- safety over all interleavings ----

  /** What a call asked for: the size and alignment of the first Begin with its number. */
  function Asked(actions: seq<Action>, id: nat): Option<(nat, nat)> {
    if actions == [] then None
    else if actions[0].Begin? && actions[0].id == id then Some((actions[0].size, actions[0].align))
    else Asked(actions[1..], id)
  }

  /** A call's size and alignment are those it was begun with, to the end. */
  lemma {:induction false} RequestsAreKept(s: Sys, actions: seq<Action>, id: nat)
    requires Shape(s)
    ensures var c, s' := Asked(actions, id), Run(s, actions);
      if id in s.calls then
        id in s'.calls && s'.calls[id].size == s.calls[id].size && s'.calls[id].align == s.calls[id].align
      else
        && (id in s'.calls <==> c.Some?)
        && (id in s'.calls ==> (s'.calls[id].size, s'.calls[id].align) == c.value)
    decreases |actions|
  {
    hide Attempt, PowerOfTwo;
    if actions != [] { RequestsAreKept(Next(s, actions[0]), actions[1..], id); }
  }

  /** What a caller that got an address can rely on: it is aligned as asked, and everything
      from it to the rounded size lies in the region; nobody else got that grant. */
  predicate Holds(s: Sys, id: nat, addr: nat, size: nat, align: nat) {
    && align > 0 && addr % align == 0 && size <= AdjSize(size, align)
    && s.heap.base <= addr && addr + AdjSize(size, align) <= s.heap.nextFree
    && exists i ::
         && 0 <= i < |s.heap.grants|
         && s.heap.grants[i] == Grant(id, addr, AdjSize(size, align), size, align)
         && (forall j :: 0 <= j < |s.heap.grants| && j != i ==> s.heap.grants[j].id != id)
  }

  lemma ReturnedHolds(s: Sys, id: nat)
    requires Inv(s) && id in s.calls && s.calls[id].Returned? && s.calls[id].result.Some?
    ensures Holds(s, id, s.calls[id].result.value, s.calls[id].size, s.calls[id].align)
  {
    hide AdjSize, Attempt, IsRequest;
    var c := s.calls[id];
    assert CallInv(s.heap, id, c);
    var i :| 0 <= i < |s.heap.grants| &&
      s.heap.grants[i] == Grant(id, c.result.value, AdjSize(c.size, c.align), c.size, c.align);
    assert GrantInv(s.heap, s.heap.grants[i]);
    forall j | 0 <= j < |s.heap.grants| && j != i ensures s.heap.grants[j].id != id {
      assert if i < j then s.heap.grants[i].id != s.heap.grants[j].id else s.heap.grants[j].id != s.heap.grants[i].id;
    }
  }

  /** Over every interleaving of any number of callers: each call that returned an address
      holds its own grant there, for the size and alignment it was begun with; a call that
      returned nothing, or has not returned, has no grant; the pointer is page-aligned and
      stays inside the region; and no caller ever loses more exchanges than there are pages. */
  lemma AllocatorIsSafe(h: Heap, actions: seq<Action>, id: nat)
    requires FreshHeap(h) && Words(actions) && SoundRun(Sys(h, map[]), actions)
    ensures var s := Run(Sys(h, map[]), actions);
      && h.base == s.heap.base <= s.heap.nextFree <= s.heap.limit == h.limit && s.heap.nextFree % PAGE == 0
      && (id in s.calls <==> Asked(actions, id).Some?)
      && (id in s.calls ==>
            var c := s.calls[id];
            && (c.size, c.align) == Asked(actions, id).value
            && match c
               case Returned(size, align, Some(addr)) => Holds(s, id, addr, size, align)
               case Returned(_, _, None) => NoGrantOf(s.heap, id)
               case _ => NoGrantOf(s.heap, id) && c.tries * PAGE <= h.limit - c.first)
  {
    hide Holds, NoGrantOf, Attempt, IsRequest, HasGrant, Next;
    var s0 := Sys(h, map[]);
    FreshInv(h);
    RunKeeps(s0, actions);
    RequestsAreKept(s0, actions, id);
    var s := Run(s0, actions);
    if id in s.calls {
      assert CallInv(s.heap, id, s.calls[id]);
      if s.calls[id].Returned? && s.calls[id].result.Some? { ReturnedHolds(s, id); }
    }
  }

  lemma FreshInv(h: Heap)
    requires FreshHeap(h)
    ensures Inv(Sys(h, map[]))
  {
  }

  // ---- exactly when ----

  /** A returned call stays as it is. */
  lemma {:induction false} ReturnedStays(s: Sys, actions: seq<Action>, id: nat)
    requires Shape(s) && id in s.calls && s.calls[id].Returned?
    ensures var s' := Run(s, actions);
      id in s'.calls && s'.calls[id] == s.calls[id] && s'.heap.base == s.heap.base
    decreases |actions|
  {
    hide Attempt, PowerOfTwo, AdjSize;
    if actions != [] { ReturnedStays(Next(s, actions[0]), actions[1..], id); }
  }

  ghost predicate AllHold(s: Sys) {
    forall id :: id in s.calls && s.calls[id].Returned? && s.calls[id].result.Some? ==>
      Holds(s, id, s.calls[id].result.value, s.calls[id].size, s.calls[id].align)
  }

  /** An attempt with a wrapping rounding that wins leaves its caller with less than it
      asked for, or with memory before the region. */
  lemma WrappedWinnerDoesNotHold(s: Sys, id: nat, actions: seq<Action>)
    requires Inv(s) && !SoundStep(s, Move(id))
    ensures !AllHold(Run(Next(s, Move(id)), actions))
  {
    hide PowerOfTwo, AlignUp, NoGrantOf;
    var c, h, s1 := s.calls[id], s.heap, Next(s, Move(id));
    assert CallInv(h, id, c);
    assert s1.calls[id] == Returned(c.size, c.align, Some(c.aligned)) && h.base > 0;
    AttemptIsSoundIff(h.nextFree, h.limit, c.size, c.align);
    AlignUpIsUpIff(c.size, Max(PAGE, c.align));
    if h.nextFree + c.align - 1 >= U64_RANGE { WrapsToZero(h.nextFree, c.align); }
    ReturnedStays(s1, actions, id);
    hide AdjSize, Next;
    var s' := Run(s1, actions);
    assert !Holds(s', id, c.aligned, c.size, c.align);
  }

  lemma {:induction false} UnsoundRunFails(s: Sys, actions: seq<Action>)
    requires Inv(s) && Words(actions) && !SoundRun(s, actions)
    ensures !AllHold(Run(s, actions))
    decreases |actions|
  {
    hide HeapInv, CallInv, NoGrantOf, Next, AllHold, IsWord;
    if SoundStep(s, actions[0]) {
      NextKeeps(s, actions[0]);
      UnsoundRunFails(Next(s, actions[0]), actions[1..]);
    } else {
      WrappedWinnerDoesNotHold(s, actions[0].id, actions[1..]);
    }
  }

  /** The exact condition, for every run of u64 requests: every caller that got an address
      holds what it asked for if and only if no attempt with a wrapping rounding won. */
  lemma EveryCallerHoldsIff(h: Heap, actions: seq<Action>)
    requires FreshHeap(h) && Words(actions)
    ensures AllHold(Run(Sys(h, map[]), actions)) <==> SoundRun(Sys(h, map[]), actions)
  {
    hide Next, Holds, IsWord, SoundStep;
    FreshInv(h);
    var s0 := Sys(h, map[]);
    if SoundRun(s0, actions) {
      RunKeeps(s0, actions);
      var s := Run(s0, actions);
      forall id | id in s.calls && s.calls[id].Returned? && s.calls[id].result.Some?
        ensures Holds(s, id, s.calls[id].result.value, s.calls[id].size, s.calls[id].align)
      {
        ReturnedHolds(s, id);
      }
    } else {
      UnsoundRunFails(s0, actions);
    }
  }

  /** A test a caller can make before the call. */
  predicate NoWrap(limit: nat, size: nat, align: nat) {
    PowerOfTwo(align) ==> !Wraps(limit, size, align)
  }

  predicate Fits(limit: nat, a: Action) {
    IsWord(a) && (a.Begin? ==> NoWrap(limit, a.size, a.align))
  }

  predicate CallsFit(s: Sys) {
    forall id :: id in s.calls && !s.calls[id].Returned? ==> !Wraps(s.heap.limit, s.calls[id].size, s.calls[id].align)
  }

  /** If every caller makes it, the run is sound. */
  lemma {:induction false} FittingRequestsAreSound(s: Sys, actions: seq<Action>)
    requires Inv(s) && CallsFit(s) && forall i :: 0 <= i < |actions| ==> Fits(s.heap.limit, actions[i])
    ensures Words(actions) && SoundRun(s, actions)
    decreases |actions|
  {
    hide HeapInv, CallInv, NoGrantOf, PowerOfTwo, Attempt, AdjSize;
    if actions != [] {
      var a, rest := actions[0], actions[1..];
      PointerBelowLimit(s);
      assert SoundStep(s, a);
      NextKeeps(s, a);
      FittingRequestsAreSound(Next(s, a), rest);
      forall i | 0 <= i < |actions| ensures IsWord(actions[i]) {
        if i > 0 { assert actions[i] == rest[i - 1]; }
      }
    }
  }

  lemma PointerBelowLimit(s: Sys)
    requires Inv(s)
    ensures s.heap.nextFree <= s.heap.limit
  {
  }

  /** The address range a call got: what it asked for, rounded. */
  function RangeEnd(c: Call): nat
    requires c.Returned? && c.result.Some? && c.align > 0
  {
    c.result.value + AdjSize(c.size, c.align)
  }

  /** Two different callers never share a byte. */
  lemma CallersNeverShare(h: Heap, actions: seq<Action>, id: nat, other: nat)
    requires FreshHeap(h) && Words(actions) && SoundRun(Sys(h, map[]), actions) && id != other
    ensures var calls := Run(Sys(h, map[]), actions).calls;
      id in calls && calls[id].Returned? && calls[id].result.Some? &&
      other in calls && calls[other].Returned? && calls[other].result.Some? ==>
        && calls[id].align > 0 && calls[other].align > 0
        && (RangeEnd(calls[id]) <= calls[other].result.value || RangeEnd(calls[other]) <= calls[id].result.value)
  {
    hide AdjSize, Attempt, IsRequest, Next;
    FreshInv(h);
    RunKeeps(Sys(h, map[]), actions);
    var s := Run(Sys(h, map[]), actions);
    if id in s.calls && s.calls[id].Returned? && s.calls[id].result.Some? &&
       other in s.calls && s.calls[other].Returned? && s.calls[other].result.Some? {
      var c, d, gs := s.calls[id], s.calls[other], s.heap.grants;
      assert CallInv(s.heap, id, c) && CallInv(s.heap, other, d);
      var i :| 0 <= i < |gs| && gs[i] == Grant(id, c.result.value, AdjSize(c.size, c.align), c.size, c.align);
      var j :| 0 <= j < |gs| && gs[j] == Grant(other, d.result.value, AdjSize(d.size, d.align), d.size, d.align);
      assert if i < j then gs[i].addr + gs[i].len <= gs[j].addr else gs[j].addr + gs[j].len <= gs[i].addr;
    }
  }

  // ---- conservation ----

  function Total(grants: seq<Grant>): nat {
    if grants == [] then 0 else Total(grants[..|grants| - 1]) + grants[|grants| - 1].len
  }

  predicate PageAligned(grants: seq<Grant>) {
    forall i :: 0 <= i < |grants| ==> grants[i].align <= PAGE
  }

  ghost predicate Conserves(h: Heap) {
    PageAligned(h.grants) ==> h.nextFree == h.base + Total(h.grants)
  }

  lemma NextConserves(s: Sys, a: Action)
    requires Inv(s) && Conserves(s.heap) && SoundStep(s, a)
    ensures Conserves(Next(s, a).heap)
  {
    if a.Move? && a.id in s.calls && s.calls[a.id].AtExchange? && s.heap.nextFree == s.calls[a.id].current {
      var h, c, h' := s.heap, s.calls[a.id], Next(s, a).heap;
      assert CallInv(h, a.id, c);
      AttemptIsSound(c.current, h.limit, c.size, c.align);
      hide Attempt, Wraps, PowerOfTwo, HeapInv, AdjSize, CallInv;
      assert h'.grants[..|h.grants|] == h.grants;
      if PageAligned(h'.grants) {
        assert forall i :: 0 <= i < |h.grants| ==> h.grants[i] == h'.grants[i];
        assert h'.grants[|h.grants|].align == c.align;
      }
    }
  }

  lemma {:induction false} RunConserves(s: Sys, actions: seq<Action>)
    requires Inv(s) && Conserves(s.heap) && Words(actions) && SoundRun(s, actions)
    ensures Conserves(Run(s, actions).heap)
    decreases |actions|
  {
    hide SoundStep, IsWord, HeapInv, CallInv, Conserves, NoGrantOf, Next;
    if actions != [] {
      NextKeeps(s, actions[0]);
      NextConserves(s, actions[0]);
      RunConserves(Next(s, actions[0]), actions[1..]);
    }
  }

  /** A region that starts at address 0 is never used: the pointer 0 means uninitialised. */
  predicate Unused(s: Sys) {
    && s.heap.nextFree == 0 && s.heap.grants == []
    && forall id :: id in s.calls ==>
         match s.calls[id]
         case AtLoad(_, _, _, _) => true
         case AtDecide(_, _, _, _, current) => current == 0
         case AtExchange(_, _, _, _, _, _, _) => false
         case Returned(_, _, r) => r.None?
  }

  lemma {:induction false} RegionAtZeroIsNeverUsed(s: Sys, actions: seq<Action>)
    requires Shape(s) && Unused(s)
    ensures Unused(Run(s, actions))
    ensures Run(s, actions).heap == s.heap
    decreases |actions|
  {
    hide PowerOfTwo, AlignUp, AdjSize;
    if actions != [] {
      assert Unused(Next(s, actions[0]));
      RegionAtZeroIsNeverUsed(Next(s, actions[0]), actions[1..]);
    }
  }

  function FreeKib(nextFree: nat, limit: nat): nat {
    if nextFree == 0 || limit <= nextFree then 0 else (limit - nextFree) / 1024
  }

  /** While no caller asks for more than page alignment, what `free_kib` reports is the
      region's size less the page-rounded sizes of the grants if and only if the region does
      not start at address 0 (or is smaller than a KiB, which no chosen region is). */
  lemma FreeSpaceIsConservedIff(h: Heap, actions: seq<Action>)
    requires FreshHeap(h) && Words(actions) && SoundRun(Sys(h, map[]), actions)
    ensures var h' := Run(Sys(h, map[]), actions).heap;
      PageAligned(h'.grants) ==>
        && Total(h'.grants) <= h.limit - h.base
        && (FreeKib(h'.nextFree, h'.limit) == (h.limit - h.base - Total(h'.grants)) / 1024
            <==> h.base > 0 || h.limit < 1024)
  {
    hide Next, SoundStep, IsWord, CallInv;
    FreshInv(h);
    RunKeeps(Sys(h, map[]), actions);
    RunConserves(Sys(h, map[]), actions);
    if h.base == 0 { RegionAtZeroIsNeverUsed(Sys(h, map[]), actions); }
  }

  /** The failing case: one page of memory at address 0 is reported as none. */
  lemma RegionAtZeroReportsNothing()
    ensures FreshHeap(Heap(0, 0, PAGE, [])) && FreeKib(0, PAGE) == 0 && PAGE / 1024 == 4
  {
  }

  // ---- init ----

  datatype Region = Region(base: nat, length: nat, usable: bool)

  predicate IsRegion(r: Region) {
    r.base < U64_RANGE && r.length < U64_RANGE
  }

  /** A usable region cut to whole pages: its start and length, 0 when nothing is left. */
  function TrimmedStart(r: Region): nat {
    AlignUp(r.base, PAGE)
  }

  function TrimmedLength(r: Region): nat {
    var end := AlignDown((r.base + r.length) % U64_RANGE, PAGE);
    if r.usable && end > TrimmedStart(r) then end - TrimmedStart(r) else 0
  }

  /** What is left of a region after trimming lies inside it if and only if the region does
      not start in the last page of the address space, where the rounded start wraps to 0;
      a wrapping end does no harm. */
  lemma TrimmingStaysInsideIff(r: Region)
    requires IsRegion(r) && TrimmedLength(r) > 0
    ensures r.base <= TrimmedStart(r) && TrimmedStart(r) + TrimmedLength(r) <= r.base + r.length
            <==> r.base + PAGE - 1 < U64_RANGE
    ensures r.base + PAGE - 1 >= U64_RANGE ==> TrimmedStart(r) == 0
    ensures TrimmedStart(r) % PAGE == 0 && TrimmedLength(r) % PAGE == 0
  {
    hide AlignUp, AlignDown;
    AlignUpIsUpIff(r.base, PAGE);
    var start, w := TrimmedStart(r), (r.base + r.length) % U64_RANGE;
    var end := AlignDown(w, PAGE);
    WrapsDown(r.base + r.length);
    DifferenceOfMultiples(start, end, PAGE);
    if r.base + PAGE - 1 >= U64_RANGE { WrapsToZero(r.base, PAGE); }
  }

  /** And nothing more is cut off than has to be: with neither end wrapping, every whole page
      of a usable region is kept. */
  lemma TrimmingKeepsEveryPage(r: Region, page: nat)
    requires IsRegion(r) && r.usable && r.base + PAGE - 1 < U64_RANGE && r.base + r.length < U64_RANGE
    requires page % PAGE == 0 && r.base <= page && page + PAGE <= r.base + r.length
    ensures TrimmedStart(r) <= page && page + PAGE <= TrimmedStart(r) + TrimmedLength(r)
  {
    hide AlignUp, AlignDown;
    AlignUpIsUpIff(r.base, PAGE);
    var w := r.base + r.length;
    DivModUnique(w, U64_RANGE, 0, w);
    PagesApart(TrimmedStart(r), page);
    PagesApart(page + PAGE, AlignDown(w, PAGE));
  }

  lemma PagesApart(x: nat, y: nat)
    requires x % PAGE == 0 && y % PAGE == 0 && x < y + PAGE
    ensures x <= y
  {
  }

  lemma WrapsDown(v: nat)
    ensures v % U64_RANGE <= v
  {
  }

  lemma DifferenceOfMultiples(x: nat, y: nat, b: nat)
    requires b > 0 && x <= y && x % b == 0 && y % b == 0
    ensures (y - x) % b == 0
  {
    DivModUnique(y - x, b, y / b - x / b, 0);
  }

  /** Every grant of every run lies inside the region that init chose, whichever it was:
      where the trimmed start wraps it is 0, and then nothing is granted. */
  lemma GrantsLieInRegion(r: Region, h: Heap, actions: seq<Action>)
    requires IsRegion(r) && TrimmedLength(r) > 0
    requires FreshHeap(h) && h.base == TrimmedStart(r) && h.limit == h.base + TrimmedLength(r)
    requires Words(actions) && SoundRun(Sys(h, map[]), actions)
    ensures var gs := Run(Sys(h, map[]), actions).heap.grants;
      forall i :: 0 <= i < |gs| ==> r.base <= gs[i].addr && gs[i].addr + gs[i].len <= r.base + r.length
  {
    hide TrimmedStart, TrimmedLength, Next, SoundStep, IsWord, CallInv;
    TrimmingStaysInsideIff(r);
    FreshInv(h);
    RunKeeps(Sys(h, map[]), actions);
    if h.base == 0 { RegionAtZeroIsNeverUsed(Sys(h, map[]), actions); }
  }

  lemma WholePages(r: Region)
    requires IsRegion(r) && TrimmedLength(r) > 0
    ensures TrimmedLength(r) >= PAGE && TrimmedStart(r) % PAGE == 0
    ensures TrimmedStart(r) + TrimmedLength(r) < U64_RANGE
  {
    hide AlignUp, AlignDown;
    var start, w := TrimmedStart(r), (r.base + r.length) % U64_RANGE;
    DifferenceOfMultiples(start, AlignDown(w, PAGE), PAGE);
  }

  // ---- the functions themselves ----

  /** NEXT_FREE and LIMIT, and the calls that have been made. */
  class Allocator {
    var nextFree: nat
    var limit: nat
    ghost var base: nat
    ghost var grants: seq<Grant>
    ghost var calls: map<nat, Call>
    ghost var nextId: nat

    ghost function State(): Sys
      reads this
    {
      Sys(Heap(base, nextFree, limit, grants), calls)
    }

    /** The state is what `actions` make of s0, and call numbers from nextId on are unused;
        nothing is said here about roundings that wrap. */
    ghost predicate Tracks(s0: Sys, actions: seq<Action>)
      reads this
    {
      && Shape(s0) && State() == Run(s0, actions) && Words(actions) && limit < U64_RANGE
      && forall id :: id in calls ==> id < nextId
    }

    constructor ()
      ensures State() == Sys(Heap(0, 0, 0, []), map[]) && Inv(State())
    {
      nextFree, limit, base, grants, calls, nextId := 0, 0, 0, [], map[], 0;
    }

    /** Picks the first of the largest trimmed usable regions; with none the allocator
        stays as it was. */
    method Init(map_: seq<Region>)
      requires forall i :: 0 <= i < |map_| ==> IsRegion(map_[i])
      requires State() == Sys(Heap(0, 0, 0, []), map[])
      modifies this
      ensures FreshHeap(State().heap) && calls == map[] && nextId == old(nextId)
      ensures (forall i :: 0 <= i < |map_| ==> TrimmedLength(map_[i]) == 0) ==> limit == 0
      ensures limit != 0 ==> exists i ::
        && 0 <= i < |map_| && TrimmedLength(map_[i]) > 0
        && nextFree == TrimmedStart(map_[i]) && limit == nextFree + TrimmedLength(map_[i])
        && (forall j :: 0 <= j < |map_| ==> TrimmedLength(map_[j]) <= TrimmedLength(map_[i]))
        && (forall j :: 0 <= j < i ==> TrimmedLength(map_[j]) < TrimmedLength(map_[i]))
    {
      hide AlignUp, AlignDown;
      var bestBase, bestLen := 0, 0;
      ghost var best := 0;
      for k := 0 to |map_|
        invariant State() == old(State()) && nextId == old(nextId)
        invariant forall j :: 0 <= j < k ==> TrimmedLength(map_[j]) <= bestLen
        invariant bestLen > 0 ==>
          && best < k && bestBase == TrimmedStart(map_[best]) && bestLen == TrimmedLength(map_[best])
          && (forall j :: 0 <= j < best ==> TrimmedLength(map_[j]) < bestLen)
        invariant bestLen == 0 ==> bestBase == 0
      {
        var entry := map_[k];
        if !entry.usable { continue; }
        var start := AlignUp(entry.base, PAGE);
        var end := AlignDown((entry.base + entry.length) % U64_RANGE, PAGE);
        if end <= start { continue; }
        var usable := end - start;
        if usable > bestLen {
          bestBase, bestLen, best := start, usable, k;
        }
      }
      if bestLen > 0 { WholePages(map_[best]); }
      if bestLen >= PAGE {
        nextFree, limit := bestBase, bestBase + bestLen;
        base := bestBase;
      }
    }

    // The steps of one call, each a step of the system.

    ghost method Enter(size: nat, align: nat, s0: Sys, actions: seq<Action>)
      returns (id: nat, actions': seq<Action>)
      requires Tracks(s0, actions) && IsWord(Begin(nextId, size, align))
      modifies this`calls, this`nextId
      ensures Tracks(s0, actions') && id == old(nextId) < nextId
      ensures calls == old(calls)[id := if PowerOfTwo(align) then AtLoad(size, align, nextFree, 0)
                                        else Returned(size, align, None)]
    {
      hide PowerOfTwo, Run;
      ghost var s := State();
      id := nextId;
      NotZero();
      calls := calls[id := if PowerOfTwo(align) then AtLoad(size, align, nextFree, 0) else Returned(size, align, None)];
      nextId := nextId + 1;
      actions' := Moved(s0, actions, Begin(id, size, align), s, State());
    }

    method Load(ghost id: nat, ghost s0: Sys, ghost actions: seq<Action>)
      returns (current: nat, ghost actions': seq<Action>)
      requires Tracks(s0, actions) && id in calls && calls[id].AtLoad?
      modifies this`calls
      ensures Tracks(s0, actions') && current == nextFree
      ensures var c := old(calls[id]);
        calls == old(calls)[id := AtDecide(c.size, c.align, c.first, c.tries, current)]
    {
      hide Run;
      ghost var s := State();
      current := nextFree;
      ghost var c := calls[id];
      calls := calls[id := AtDecide(c.size, c.align, c.first, c.tries, current)];
      actions' := Moved(s0, actions, Move(id), s, State());
    }

    /** The loop body between the loads and the exchange. */
    method Decide(ghost id: nat, current: nat, size: nat, align: nat, ghost s0: Sys, ghost actions: seq<Action>)
      returns (attempt: Option<(nat, nat)>, ghost actions': seq<Action>)
      requires Tracks(s0, actions) && id in calls && align > 0
      requires calls[id].AtDecide? && calls[id].current == current && calls[id].size == size && calls[id].align == align
      modifies this`calls
      ensures Tracks(s0, actions')
      ensures attempt.None? <==>
        current == 0 || current >= limit || AlignUp(current, align) + AdjSize(size, align) > limit
      ensures attempt.Some? ==> attempt.value.0 == AlignUp(current, align)
      ensures var c := old(calls[id]);
        calls == old(calls)[id := if attempt.None? then Returned(size, align, None)
          else AtExchange(size, align, c.first, c.tries, current, attempt.value.0, attempt.value.1)]
    {
      hide Run, AlignUp, AdjSize;
      ghost var s, c := State(), calls[id];
      RefusedIff(current, limit, size, align);
      attempt := None;
      if current != 0 && current < limit {
        var aligned := AlignUp(current, align);
        var end := aligned + AdjSize(size, align);
        if end < U64_RANGE && end <= limit { attempt := Some((aligned, end)); }
      }
      calls := calls[id := if attempt.None? then Returned(size, align, None)
        else AtExchange(size, align, c.first, c.tries, current, attempt.value.0, attempt.value.1)];
      actions' := Moved(s0, actions, Move(id), s, State());
    }

    /** `compare_exchange`. */
    method Exchange(ghost id: nat, current: nat, end: nat, ghost s0: Sys, ghost actions: seq<Action>)
      returns (won: bool, ghost actions': seq<Action>)
      requires Tracks(s0, actions) && id in calls && calls[id].AtExchange?
      requires calls[id].current == current && calls[id].end == end
      modifies this`calls, this`nextFree, this`grants
      ensures Tracks(s0, actions') && (won <==> old(nextFree) == current)
      ensures var c := old(calls[id]);
        calls == old(calls)[id := if won then Returned(c.size, c.align, Some(c.aligned))
                                  else AtLoad(c.size, c.align, c.first, c.tries + 1)]
      ensures !won ==> nextFree == old(nextFree)
    {
      hide Run, AdjSize;
      ghost var s, c := State(), calls[id];
      assert c.align > 0;
      won := nextFree == current;
      if won {
        grants := grants + [Grant(id, c.aligned, AdjSize(c.size, c.align), c.size, c.align)];
        nextFree := end;
        calls := calls[id := Returned(c.size, c.align, Some(c.aligned))];
      } else {
        calls := calls[id := AtLoad(c.size, c.align, c.first, c.tries + 1)];
      }
      actions' := Moved(s0, actions, Move(id), s, State());
    }

    /** A whole call of someone else, while this caller is between its loads and its exchange. */
    method Rival(size: nat, align: nat, ghost s0: Sys, ghost actions: seq<Action>)
      returns (ghost actions': seq<Action>)
      requires Tracks(s0, actions) && IsWord(Begin(nextId, size, align))
      modifies this`calls, this`nextId, this`nextFree, this`grants
      ensures Tracks(s0, actions') && old(nextId) <= nextId
      ensures forall id :: id in old(calls) && id < old(nextId) ==> id in calls && calls[id] == old(calls[id])
    {
      hide Tracks, Attempt, PowerOfTwo, AlignUp, AdjSize;
      ghost var id;
      id, actions' := Enter(size, align, s0, actions);
      NotZero();
      if PowerOfTwo(align) {
        var current, attempt;
        current, actions' := Load(id, s0, actions');
        attempt, actions' := Decide(id, current, size, align, s0, actions');
        if attempt.Some? {
          var won;
          won, actions' := Exchange(id, current, attempt.value.1, s0, actions');
        }
      }
    }

    /** `alloc_aligned`.  `rivals[t]` are the requests that other callers complete between
        the loads and the exchange of attempt t.  The call is a run of the step system, with
        any requests, so all that is proved of runs holds here.  It returns nothing exactly
        when the alignment is bad or, at its last look, the pointer was 0 or at the limit or
        the rounded request ended behind the limit. */
    method AllocAligned(size: nat, align: nat, rivals: seq<seq<(nat, nat)>>)
      returns (r: Option<nat>, ghost id: nat, ghost actions: seq<Action>)
      requires Shape(State()) && limit < U64_RANGE && (forall k :: k in calls ==> k < nextId)
      requires size < U64_RANGE && align < U64_RANGE
      requires forall t, i :: 0 <= t < |rivals| && 0 <= i < |rivals[t]| ==>
        rivals[t][i].0 < U64_RANGE && rivals[t][i].1 < U64_RANGE
      modifies this`calls, this`nextId, this`nextFree, this`grants
      ensures Tracks(old(State()), actions)
      ensures id == old(nextId) && id in calls && calls[id] == Returned(size, align, r)
      ensures old(Inv(State())) && SoundRun(old(State()), actions) ==>
        && Inv(State()) && Monotone(old(State().heap), State().heap)
        && (r.Some? ==> Holds(State(), id, r.value, size, align))
      ensures !PowerOfTwo(align) ==> r == None && nextFree == old(nextFree)
      ensures PowerOfTwo(align) && r.None? ==>
        align > 0 && (nextFree == 0 || nextFree >= limit || AlignUp(nextFree, align) + AdjSize(size, align) > limit)
    {
      hide Attempt, PowerOfTwo, AlignUp, AdjSize, Inv, SoundRun, Holds, Monotone, Tracks, Run;
      ghost var s0 := State();
      TracksNothing();
      id, actions := Enter(size, align, s0, []);
      NotZero();
      if align == 0 || !PowerOfTwo(align) {
        r := None;
        TracksMeans(s0, actions);
        CallKeeps(s0, actions, State(), id);
        return;
      }
      var t := 0;
      while true
        invariant Tracks(s0, actions) && id < nextId && 0 <= t <= |rivals|
        invariant id in calls && calls[id].AtLoad? && calls[id].size == size && calls[id].align == align
        decreases |rivals| - t
      {
        var current, attempt;
        current, actions := Load(id, s0, actions);
        attempt, actions := Decide(id, current, size, align, s0, actions);
        if attempt.None? {
          r := None;
          break;
        }
        if t < |rivals| { actions := RivalsRun(rivals[t], id, s0, actions); }
        var won;
        won, actions := Exchange(id, current, attempt.value.1, s0, actions);
        if won {
          r := Some(attempt.value.0);
          break;
        }
        t := t + 1;
      }
      TracksMeans(s0, actions);
      CallKeeps(s0, actions, State(), id);
    }

    method RivalsRun(requests: seq<(nat, nat)>, ghost id: nat, ghost s0: Sys, ghost actions: seq<Action>)
      returns (ghost actions': seq<Action>)
      requires Tracks(s0, actions) && id in calls && id < nextId
      requires forall i :: 0 <= i < |requests| ==> requests[i].0 < U64_RANGE && requests[i].1 < U64_RANGE
      modifies this`calls, this`nextId, this`nextFree, this`grants
      ensures Tracks(s0, actions') && old(nextId) <= nextId
      ensures id in calls && calls[id] == old(calls[id])
    {
      hide Tracks, PowerOfTwo;
      actions' := actions;
      for i := 0 to |requests|
        invariant Tracks(s0, actions') && old(nextId) <= nextId
        invariant id in calls && calls[id] == old(calls[id])
      {
        actions' := Rival(requests[i].0, requests[i].1, s0, actions');
      }
    }

    lemma TracksNothing()
      requires Shape(State()) && limit < U64_RANGE && (forall k :: k in calls ==> k < nextId)
      ensures Tracks(State(), [])
    {
    }

    lemma TracksMeans(s0: Sys, actions: seq<Action>)
      requires Tracks(s0, actions)
      ensures Shape(s0) && State() == Run(s0, actions) && Words(actions)
    {
    }
  }

  lemma NotZero()
    ensures !PowerOfTwo(0)
  {
  }

  /** What a sound run gives a call that returned in it. */
  lemma CallKeeps(s0: Sys, actions: seq<Action>, s: Sys, id: nat)
    requires Shape(s0) && s == Run(s0, actions) && Words(actions) && id in s.calls && s.calls[id].Returned?
    ensures Inv(s0) && SoundRun(s0, actions) ==>
      && Inv(s) && Monotone(s0.heap, s.heap)
      && var c := s.calls[id];
         c.result.Some? ==> Holds(s, id, c.result.value, c.size, c.align)
  {
    hide Inv, SoundRun, Monotone, Holds, Run;
    if Inv(s0) && SoundRun(s0, actions) {
      RunKeeps(s0, actions);
      if s.calls[id].result.Some? { ReturnedHolds(s, id); }
    }
  }

  /** Extends a run by one step. */
  lemma Moved(s0: Sys, actions: seq<Action>, a: Action, s: Sys, s': Sys) returns (actions': seq<Action>)
    requires Shape(s0) && s == Run(s0, actions) && Words(actions) && IsWord(a)
    requires s' == Next(s, a)
    ensures actions' == actions + [a] && s' == Run(s0, actions') && Words(actions')
  {
    hide IsWord, Next;
    actions' := actions + [a];
    RunAppend(s0, actions, [a]);
  }

  lemma {:induction false} RunAppend(s: Sys, a: seq<Action>, b: seq<Action>)
    requires Shape(s)
    ensures Run(s, a + b) == Run(Run(s, a), b)
    decreases |a|
  {
    hide Next;
    if a == [] {
      assert a + b == b;
    } else {
      assert (a + b)[1..] == a[1..] + b;
      RunAppend(Next(s, a[0]), a[1..], b);
    }
  }
}
