/** Transfer Request Blocks: the 16-byte entries of every xHCI ring.  The three
    words are kept as numbers; bit fields are read with division and remainder. */
module Trbs {
  import opened RingArithmetic

  datatype Trb = Trb(parameter: nat, status: nat, control: nat)

  /** What `zero_trbs` stores in every slot. */
  const ZERO := Trb(0, 0, 0)

  /** Bit 0 of the control word. */
  predicate Cycle(t: Trb) {
    t.control % 2 == 1
  }

  /** Bits 10..15 of the control word. */
  function TrbType(t: Trb): nat {
    (t.control / 1024) % 64
  }

  function Bit(c: bool): nat {
    if c then 1 else 0
  }

  /** The same TRB with its cycle bit replaced, as the controller writes it. */
  function WithCycle(t: Trb, c: bool): (r: Trb)
    ensures Cycle(r) == c
    ensures r.control / 2 == t.control / 2 && TrbType(r) == TrbType(t)
  {
    var r := t.(control := t.control - t.control % 2 + Bit(c));
    assert r.control / 2 == t.control / 2;
    assert r.control / 1024 == t.control / 2 / 512;
    r
  }

  /** A ring after `produced` has been written round it: each slot holds the newest
      entry that fell on it, carrying the cycle bit of its lap; untouched slots carry 0. */
  ghost predicate RingHolds(ring: seq<Trb>, produced: seq<Trb>) {
    var n, p := |ring|, |produced|;
    && n > 0
    && (forall k :: 0 <= k < p <= k + n ==> ring[k % n] == produced[k])
    && (forall k :: 0 <= k < p ==> Cycle(produced[k]) == LapCycle(k, n))
    && (forall j :: p <= j < n ==> !Cycle(ring[j]))
  }

  lemma UntouchedSlot(ring: seq<Trb>, produced: seq<Trb>)
    requires RingHolds(ring, produced)
    ensures Cycle(ring[|produced| % |ring|]) != LapCycle(|produced|, |ring|)
  {
    var n, p := |ring|, |produced|;
    if p < n {
      FirstLap(p, n);
    } else {
      PreviousLap(p, n);
      assert ring[(p - n) % n] == produced[p - n];
    }
  }

  lemma RingGrows(ring: seq<Trb>, produced: seq<Trb>, w: Trb)
    requires RingHolds(ring, produced)
    requires Cycle(w) == LapCycle(|produced|, |ring|)
    ensures RingHolds(ring[|produced| % |ring| := w], produced + [w])
  {
    var n, p := |ring|, |produced|;
    var ring' := ring[p % n := w];
    forall k | 0 <= k < p + 1 <= k + n
      ensures ring'[k % n] == (produced + [w])[k]
    {
      if k < p { SlotsDistinct(k, p, n); }
    }
    forall j | p + 1 <= j < n
      ensures !Cycle(ring'[j])
    {
      FirstLap(p, n);
    }
  }
}
