/** The cooperative task table: a fixed number of slots and a rotating cursor. */
module Tasks {
  import opened Bytes
  import opened RingArithmetic

  type Task = nat
  type Slots = seq<Option<Task>>

  // ---- what the slots mean ----

  function Count(s: Slots): nat {
    if s == [] then 0 else Count(s[..|s| - 1]) + if s[|s| - 1].Some? then 1 else 0
  }

  /** Occupied slots come first. */
  predicate Prefix(s: Slots) {
    forall i, j :: 0 <= i < j < |s| && s[j].Some? ==> s[i].Some?
  }

  /** The slot at position c of a walk that goes round and round. */
  function SlotAt(s: Slots, c: nat): (i: nat)
    requires |s| > 0
    ensures i < |s|
  {
    c % |s|
  }

  /** The first occupied slot among the m that follow position c, going round. */
  function FirstFrom(s: Slots, c: nat, m: nat): (r: Option<nat>)
    requires |s| > 0
    ensures r.Some? ==> r.value < |s| && s[r.value].Some?
    decreases m
  {
    if m == 0 then None
    else if s[SlotAt(s, c)].Some? then Some(SlotAt(s, c))
    else FirstFrom(s, c + 1, m - 1)
  }

  /** The slot one call runs, and the cursor it leaves. */
  function Ran(s: Slots, cursor: nat): Option<nat> {
    if |s| == 0 then None else FirstFrom(s, cursor, |s|)
  }

  function CursorAfter(s: Slots, cursor: nat): nat {
    var r := Ran(s, cursor);
    if r.None? then cursor else (r.value + 1) % |s|
  }

  /** The slots run by k calls in a row. */
  function RunMany(s: Slots, cursor: nat, k: nat): seq<nat>
    decreases k
  {
    if k == 0 then []
    else
      (if Ran(s, cursor).Some? then [Ran(s, cursor).value] else []) + RunMany(s, CursorAfter(s, cursor), k - 1)
  }

  /** The occupied slots met while going m positions round from c. */
  function Window(s: Slots, c: nat, m: nat): seq<nat>
    requires |s| > 0
    decreases m
  {
    if m == 0 then [] else Here(s, c) + Window(s, c + 1, m - 1)
  }

  function Here(s: Slots, c: nat): seq<nat>
    requires |s| > 0
  {
    if s[SlotAt(s, c)].Some? then [SlotAt(s, c)] else []
  }

  /** One call, without recursion: it runs the first occupied slot met from the cursor on,
      going round, and runs nothing if and only if all are empty. */
  lemma {:induction false} FirstFromMeaning(s: Slots, c: nat, m: nat)
    requires |s| > 0
    ensures var r := FirstFrom(s, c, m);
      && (r.None? <==> forall p :: c <= p < c + m ==> s[SlotAt(s, p)].None?)
      && (r.Some? ==> exists p ::
            && c <= p < c + m && r == Some(SlotAt(s, p)) && s[SlotAt(s, p)].Some?
            && forall q :: c <= q < p ==> s[SlotAt(s, q)].None?)
    decreases m
  {
    hide SlotAt;
    if m > 0 {
      if s[SlotAt(s, c)].None? {
        FirstFromMeaning(s, c + 1, m - 1);
        var r := FirstFrom(s, c + 1, m - 1);
        if r.Some? {
          var p :| c + 1 <= p < c + m && r == Some(SlotAt(s, p)) && s[SlotAt(s, p)].Some?
                   && forall q :: c + 1 <= q < p ==> s[SlotAt(s, q)].None?;
          assert forall q :: c <= q < p ==> s[SlotAt(s, q)].None?;
        }
      }
    }
  }

  // ---- fairness ----

  lemma SlotSteps(s: Slots, c: nat, d: nat)
    requires |s| > 0 && SlotAt(s, c) == SlotAt(s, d)
    ensures SlotAt(s, c + 1) == SlotAt(s, d + 1)
  {
    Advance(c, |s|);
    Advance(d, |s|);
  }

  lemma {:induction false} WindowModulo(s: Slots, c: nat, d: nat, m: nat)
    requires |s| > 0 && SlotAt(s, c) == SlotAt(s, d)
    ensures Window(s, c, m) == Window(s, d, m)
    decreases m
  {
    hide SlotAt;
    if m > 0 {
      SlotSteps(s, c, d);
      WindowModulo(s, c + 1, d + 1, m - 1);
      assert Here(s, c) == Here(s, d);
      hide Here;
    }
  }

  lemma {:induction false} WindowSnoc(s: Slots, c: nat, m: nat)
    requires |s| > 0
    ensures Window(s, c, m + 1) == Window(s, c, m) + Here(s, c + m)
    decreases m
  {
    hide SlotAt, Here;
    if m > 0 {
      WindowSnoc(s, c + 1, m - 1);
      assert c + 1 + (m - 1) == c + m;
      assert Here(s, c) + (Window(s, c + 1, m - 1) + Here(s, c + m)) == Window(s, c, m) + Here(s, c + m);
    }
  }

  /** A longer look finds the same slot. */
  lemma {:induction false} FirstStays(s: Slots, c: nat, m: nat, m': nat)
    requires |s| > 0 && m <= m' && Window(s, c, m) != []
    ensures FirstFrom(s, c, m') == FirstFrom(s, c, m) == Some(Window(s, c, m)[0])
    decreases m
  {
    hide SlotAt;
    var tail := Window(s, c + 1, m - 1);
    if s[SlotAt(s, c)].Some? {
      assert Window(s, c, m) == [SlotAt(s, c)] + tail;
    } else {
      assert Window(s, c, m) == [] + tail == tail;
      FirstStays(s, c + 1, m - 1, m' - 1);
    }
  }

  lemma NextPosition(s: Slots, c: nat)
    requires |s| > 0
    ensures SlotAt(s, (SlotAt(s, c) + 1) % |s|) == SlotAt(s, c + 1)
  {
    Advance(c, |s|);
    var next := (c % |s| + 1) % |s|;
    DivModUnique(next, |s|, 0, next);
  }

  /** The first call runs the first slot of the window. */
  lemma RunsFirst(s: Slots, c: nat, m: nat, k: nat)
    requires |s| > 0 && m <= |s| && Window(s, c, m) != [] && k > 0
    ensures var i := Window(s, c, m)[0];
      RunMany(s, c, k) == [i] + RunMany(s, (i + 1) % |s|, k - 1)
  {
    hide SlotAt, FirstFrom, Window;
    FirstStays(s, c, m, |s|);
    assert Ran(s, c) == Some(Window(s, c, m)[0]);
  }

  /** Calls made while the window lasts run exactly the window, in order. */
  lemma {:induction false} RunsTheWindow(s: Slots, c: nat, m: nat)
    requires |s| > 0 && m <= |s|
    ensures RunMany(s, c, |Window(s, c, m)|) == Window(s, c, m)
    decreases m
  {
    hide SlotAt, FirstFrom, Ran, CursorAfter, Window;
    var n, w := |s|, Window(s, c, m);
    if m == 0 {
      EmptyWindow(s, c);
    } else if w != [] {
      RunsFirst(s, c, m, |w|);
      WindowCons(s, c, m);
      if s[SlotAt(s, c)].Some? {
        var next := (SlotAt(s, c) + 1) % n;
        NextPosition(s, c);
        WindowModulo(s, c + 1, next, m - 1);
        RunsTheWindow(s, next, m - 1);
      } else {
        assert w == Window(s, c + 1, m - 1);
        RunsTheWindow(s, c + 1, m - 1);
        RunsFirst(s, c + 1, m - 1, |w|);
      }
    }
  }

  lemma WindowCons(s: Slots, c: nat, m: nat)
    requires |s| > 0 && m > 0
    ensures Window(s, c, m) == Here(s, c) + Window(s, c + 1, m - 1)
  {
  }

  lemma FullTurn(s: Slots, c: nat)
    requires |s| > 0
    ensures Here(s, c + |s|) == Here(s, c)
  {
    PreviousLap(c + |s|, |s|);
  }

  /** A full turn meets the same slots from wherever it starts. */
  lemma {:induction false} TurnIsRotation(s: Slots, c: nat)
    requires |s| > 0
    ensures multiset(Window(s, c, |s|)) == multiset(Window(s, 0, |s|))
  {
    hide Here, Window;
    if c > 0 {
      var n := |s|;
      TurnIsRotation(s, c - 1);
      WindowSnoc(s, c, n - 1);
      WindowCons(s, c - 1, n);
      FullTurn(s, c - 1);
      assert c + (n - 1) == c - 1 + n;
    }
  }

  lemma HereFirstLap(s: Slots, c: nat)
    requires c < |s|
    ensures Here(s, c) == if s[c].Some? then [c] else []
  {
    FirstLap(c, |s|);
  }

  lemma EmptyWindow(s: Slots, c: nat)
    requires |s| > 0
    ensures Window(s, c, 0) == []
  {
  }

  lemma CountOne(w: seq<nat>, h: seq<nat>, i: nat)
    ensures multiset(w + h)[i] == multiset(w)[i] + multiset(h)[i]
  {
  }

  lemma {:induction false} TurnFromStart(s: Slots, m: nat, i: nat)
    requires 0 < |s| && m <= |s| && i < |s|
    ensures multiset(Window(s, 0, m))[i] == (if i < m && s[i].Some? then 1 else 0)
    ensures |Window(s, 0, m)| == Count(s[..m])
    decreases m
  {
    hide Here, Window;
    if m == 0 {
      EmptyWindow(s, 0);
    } else {
      var k := m - 1;
      TurnFromStart(s, k, i);
      WindowSnoc(s, 0, k);
      HereFirstLap(s, k);
      assert s[..m][..k] == s[..k] && s[..m][k] == s[k];
      CountOne(Window(s, 0, k), Here(s, k), i);
      assert Window(s, 0, m) == Window(s, 0, k) + Here(s, k);
    }
  }

  /** For any table, any occupied slots and any cursor: as many consecutive calls as there
      are tasks run each occupied slot exactly once, and no empty one. */
  lemma RoundRobinIsFair(s: Slots, cursor: nat, i: nat)
    requires i < |s|
    ensures |RunMany(s, cursor, Count(s))| == Count(s)
    ensures multiset(RunMany(s, cursor, Count(s)))[i] == if s[i].Some? then 1 else 0
  {
    var n := |s|;
    TurnIsRotation(s, cursor);
    TurnFromStart(s, n, i);
    assert s[..n] == s;
    assert |Window(s, cursor, n)| == |multiset(Window(s, cursor, n))|;
    assert |Window(s, 0, n)| == |multiset(Window(s, 0, n))|;
    RunsTheWindow(s, cursor, n);
  }

  // ---- the table ----

  class Table {
    const slots: array<Option<Task>>
    var next: nat

    predicate Valid()
      reads this, slots
    {
      Prefix(slots[..]) && (slots.Length == 0 || next < slots.Length)
    }

    constructor (n: nat)
      ensures fresh(slots) && Valid() && slots.Length == n && next == 0 && Count(slots[..]) == 0
    {
      slots := new Option<Task>[n](_ => None);
      next := 0;
      new;
      NoneCount(slots[..]);
    }

    /** Fills the first empty slot; refuses exactly when there is none. */
    method Register(task: Task) returns (ok: bool)
      requires Valid()
      modifies slots
      ensures Valid()
      ensures ok <==> old(Count(slots[..])) < slots.Length
      ensures ok ==> slots[..] == old(slots[..])[old(Count(slots[..])) := Some(task)]
      ensures !ok ==> slots[..] == old(slots[..])
      ensures Count(slots[..]) == old(Count(slots[..])) + if ok then 1 else 0
    {
      ghost var before := slots[..];
      for k := 0 to slots.Length
        invariant slots[..] == before
        invariant forall j :: 0 <= j < k ==> slots[j].Some?
      {
        if slots[k].None? {
          PrefixCount(before, k);
          slots[k] := Some(task);
          assert slots[..] == before[k := Some(task)];
          PrefixCount(slots[..], k + 1);
          return true;
        }
      }
      PrefixCount(before, slots.Length);
      return false;
    }

    /** One turn of the scheduler; `ran` is the slot whose function is then called. */
    method RunOnce() returns (ran: Option<nat>)
      requires Valid()
      modifies this`next
      ensures Valid()
      ensures ran == Ran(slots[..], old(next)) && next == CursorAfter(slots[..], old(next))
    {
      var len := slots.Length;
      ghost var s := slots[..];
      if len > 0 { DivModUnique(next, len, 0, next); }
      var k := 0;
      while k < len
        invariant 0 <= k <= len && (if len == 0 then next == old(next) else next < len)
        invariant len > 0 ==> FirstFrom(s, old(next), len) == FirstFrom(s, old(next) + k, len - k)
        invariant len > 0 ==> next == SlotAt(s, old(next) + k)
      {
        var i := next % len;
        DivModUnique(next, len, 0, next);
        Advance(old(next) + k, len);
        next := (next + 1) % len;
        if slots[i].Some? { return Some(i); }
        k := k + 1;
      }
      if len > 0 {
        PreviousLap(old(next) + len, len);
        DivModUnique(old(next), len, 0, old(next));
        assert next == SlotAt(s, old(next) + len) == old(next);
      }
      return None;
    }

    method RunqueueLen() returns (n: nat)
      ensures n == Count(slots[..])
    {
      n := 0;
      for k := 0 to slots.Length
        invariant n == Count(slots[..k])
      {
        assert slots[..k + 1][..k] == slots[..k];
        if slots[k].Some? { n := n + 1; }
      }
      assert slots[..slots.Length] == slots[..];
    }
  }

  lemma {:induction false} NoneCount(s: Slots)
    requires forall i :: 0 <= i < |s| ==> s[i].None?
    ensures Count(s) == 0
  {
    if s != [] { NoneCount(s[..|s| - 1]); }
  }

  /** In a prefix table the number of tasks is where the empty slots begin. */
  lemma {:induction false} PrefixCount(s: Slots, k: nat)
    requires k <= |s| && (forall i :: 0 <= i < k ==> s[i].Some?) && (forall i :: k <= i < |s| ==> s[i].None?)
    ensures Count(s) == k
  {
    if s != [] {
      PrefixCount(s[..|s| - 1], if k == |s| then k - 1 else k);
    }
  }
}
