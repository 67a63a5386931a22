/** `infer_and_propose`: features, quantised forward pass, score and proposed action. */
module Inference {
  import opened Bytes
  import opened Actions
  import opened Aimd
  import opened RingArithmetic

  /** The machine's i32; every operation on it is proved not to overflow. */
  newtype I32 = x: int | -0x8000_0000 <= x < 0x8000_0000

  const MAX_WIDTH := 256

  datatype Preset = Preset(shift: nat, quantumBase: nat, quantumScale: nat, memLowKb: nat, pfThresh: nat)

  const STANDARD := Preset(6, 1000, 20, 8 * 1024, 0)
  const AGGRESSIVE := Preset(5, 800, 30, 8 * 1024, 0)
  const CONSERVATIVE := Preset(6, 1500, 10, 16 * 1024, 1)

  predicate IsPreset(p: Preset) {
    p == STANDARD || p == AGGRESSIVE || p == CONSERVATIVE
  }

  /** The u32 readings the agent works from. */
  datatype Telemetry = Telemetry(runq: nat, irqRate: nat, freeKb: nat, pfRate: nat)

  predicate IsTelemetry(t: Telemetry) {
    t.runq < U32_RANGE && t.irqRate < U32_RANGE && t.freeKb < U32_RANGE && t.pfRate < U32_RANGE
  }

  function Pow2(k: nat): (r: nat)
    ensures r > 0
  {
    if k == 0 then 1 else 2 * Pow2(k - 1)
  }

  // ---- the mathematical forward pass ----

  function FeatureAt(t: Telemetry, i: nat): (f: int)
    ensures 0 <= f <= 127
  {
    if i == 0 then Min(t.runq, 127) else if i == 1 then Min(t.irqRate, 127)
    else if i == 2 then Min(t.freeKb / 1024, 127) else if i == 3 then Min(t.pfRate, 127) else 0
  }

  function Features(h: Header, t: Telemetry): seq<int> {
    seq(Min(h.hidden, MAX_WIDTH), i requires i >= 0 => FeatureAt(t, i))
  }

  /** The inputs of the network: task count, interrupt rate, free MiB and page fault rate,
      each cut off at 127, as far as the model is wide, and zeros behind them. */
  lemma FeaturesAreReadings(h: Header, t: Telemetry)
    ensures var x := Features(h, t);
      && |x| == (if h.hidden <= 256 then h.hidden else 256)
      && (|x| > 0 ==> x[0] == if t.runq < 127 then t.runq else 127)
      && (|x| > 1 ==> x[1] == if t.irqRate < 127 then t.irqRate else 127)
      && (|x| > 2 ==> x[2] == if t.freeKb < 127 * 1024 then t.freeKb / 1024 else 127)
      && (|x| > 3 ==> x[3] == if t.pfRate < 127 then t.pfRate else 127)
      && forall i :: 4 <= i < |x| ==> x[i] == 0
  {
    if t.freeKb >= 127 * 1024 { DivNonNegative(t.freeKb - 127 * 1024, 1024); }
  }

  predicate Activations(x: seq<int>) {
    forall i :: 0 <= i < |x| ==> 0 <= x[i] <= 127
  }

  /** The inner product of n weights starting at `a` with x. */
  function Dot(model: seq<Byte>, a: nat, x: seq<int>, n: nat): int
    requires n <= |x| && a + n <= |model|
  {
    if n == 0 then 0 else Dot(model, a, x, n - 1) + ReadI8(model[a + n - 1]) * x[n - 1]
  }

  /** What a dot product means: each weight counts with its own activation. */
  lemma {:induction false} DotPicks(model: seq<Byte>, a: nat, x: seq<int>, n: nat, k: nat)
    requires n <= |x| && a + n <= |model| && k < n && forall i :: 0 <= i < n && i != k ==> x[i] == 0
    ensures Dot(model, a, x, n) == ReadI8(model[a + k]) * x[k]
  {
    if k + 1 == n { DotOfNothing(model, a, x, k); } else { DotPicks(model, a, x, n - 1, k); }
  }

  lemma {:induction false} DotOfNothing(model: seq<Byte>, a: nat, x: seq<int>, n: nat)
    requires n <= |x| && a + n <= |model| && forall i :: 0 <= i < n ==> x[i] == 0
    ensures Dot(model, a, x, n) == 0
  {
    if n > 0 { DotOfNothing(model, a, x, n - 1); }
  }

  /** And the products of two activation vectors add up. */
  lemma {:induction false} DotAdds(model: seq<Byte>, a: nat, x: seq<int>, y: seq<int>, z: seq<int>, n: nat)
    requires n <= |x| == |y| == |z| && a + n <= |model| && forall i :: 0 <= i < |x| ==> z[i] == x[i] + y[i]
    ensures Dot(model, a, z, n) == Dot(model, a, x, n) + Dot(model, a, y, n)
  {
    if n > 0 {
      DotAdds(model, a, x, y, z, n - 1);
      var w := ReadI8(model[a + n - 1]);
      assert w * (x[n - 1] + y[n - 1]) == w * x[n - 1] + w * y[n - 1];
    }
  }

  function SaturateI32(v: int): (r: int)
    ensures -0x8000_0000 <= r < 0x8000_0000
  {
    if v < -0x8000_0000 then -0x8000_0000 else if v > 0x7FFF_FFFF then 0x7FFF_FFFF else v
  }

  lemma DivNonNegative(v: nat, d: nat)
    requires d > 0
    ensures v / d >= 0
  {
  }

  /** ReLU, scaling down by 2^shift, clamping to 127. */
  function Requantise(v: int, shift: nat): (r: int)
    ensures 0 <= r <= 127
  {
    DivNonNegative(if v < 0 then 0 else v, Pow2(shift));
    Min((if v < 0 then 0 else v) / Pow2(shift), 127)
  }

  /** What a saturated number means: the nearest one an i32 can hold. */
  lemma SaturatedIsNearest(v: int, w: int)
    requires -0x8000_0000 <= w < 0x8000_0000
    ensures if v <= w then v <= SaturateI32(v) <= w else w <= SaturateI32(v) <= v
  {
  }

  /** What a requantised sum means: a negative sum gives 0, otherwise as many whole multiples
      of 2^shift as fit in it, at most 127. */
  lemma RequantisedCounts(v: int, shift: nat)
    ensures var r, d := Requantise(v, shift), Pow2(shift);
      && (v < 0 ==> r == 0)
      && (v >= 0 ==> r * d <= v && (r < 127 ==> v < (r + 1) * d))
  {
    hide Pow2;
    if v >= 0 { CountsMultiples(v, Pow2(shift), Requantise(v, shift)); }
  }

  lemma CountsMultiples(v: nat, d: nat, r: nat)
    requires d > 0 && r == Min(v / d, 127)
    ensures r * d <= v && (r < 127 ==> v < (r + 1) * d)
  {
    var q := v / d;
    assert q * d <= v < q * d + d;
    MulMonotone(r, q, d);
    assert (q + 1) * d == q * d + d;
  }

  /** The whole weights block is present. */
  predicate HasWeights(h: Header, len: nat) {
    h.dtype == 0 && h.nLayers > 0 && Offset(h, h.nLayers) > 0 && PAYLOAD_OFFSET + Offset(h, h.nLayers) <= len
  }

  function Neuron(model: seq<Byte>, h: Header, l: nat, x: seq<int>, o: nat): (v: int)
    requires HasWeights(h, |model|) && l < h.nLayers && h.hidden <= |x| && o < OutDim(h, l)
    ensures -0x8000_0000 <= v < 0x8000_0000
  {
    InsideModel(h, |model|, l, o);
    SaturateI32(Dot(model, WeightAddr(h, l) + o * h.hidden, x, h.hidden) + ReadI32(model, BiasAddr(h, l) + 4 * o))
  }

  function Layer(model: seq<Byte>, h: Header, l: nat, x: seq<int>, shift: nat): (y: seq<int>)
    requires HasWeights(h, |model|) && l < h.nLayers && h.hidden <= |x|
    ensures |y| == OutDim(h, l) && Activations(y)
  {
    seq(OutDim(h, l), o requires 0 <= o < OutDim(h, l) => Requantise(Neuron(model, h, l, x, o), shift))
  }

  /** How many layers are evaluated: a model wider than the buffer stops before the first
      layer, an output wider than the buffer before the last. */
  function LayersRun(h: Header): (n: nat)
    ensures n <= h.nLayers
  {
    if h.hidden == 0 || h.hidden > MAX_WIDTH then 0
    else if h.nLayers > 0 && LastOut(h) > MAX_WIDTH then h.nLayers - 1
    else h.nLayers
  }

  function Width(h: Header, l: nat): nat {
    if l == 0 then Min(h.hidden, MAX_WIDTH) else OutDim(h, l - 1)
  }

  /** The fold of the first l layers over the features. */
  function Forward(model: seq<Byte>, h: Header, t: Telemetry, shift: nat, l: nat): (x: seq<int>)
    requires HasWeights(h, |model|) && l <= LayersRun(h)
    ensures |x| == Width(h, l) <= MAX_WIDTH && Activations(x)
  {
    if l == 0 then Features(h, t) else Layer(model, h, l - 1, Forward(model, h, t, shift, l - 1), shift)
  }

  /** The break test of the layer loop fires exactly at layer LayersRun(h). */
  lemma StopsOnlyThere(h: Header, l: nat)
    requires l <= LayersRun(h) && l < h.nLayers
    ensures (h.hidden > Width(h, l) || OutDim(h, l) > MAX_WIDTH || h.hidden == 0 || OutDim(h, l) == 0)
            <==> l == LayersRun(h)
    ensures l == LayersRun(h) ==> l == 0 || l + 1 == h.nLayers
  {
  }

  /** Every weight and bias the loop reads lies inside the model's bytes. */
  lemma InsideModel(h: Header, len: nat, l: nat, o: nat)
    requires HasWeights(h, len) && l < h.nLayers && o < OutDim(h, l)
    ensures WeightAddr(h, l) + o * h.hidden + h.hidden <= BiasAddr(h, l)
    ensures BiasAddr(h, l) + 4 * o + 4 <= len
  {
    hide Offset, OutDim;
    OffsetMonotone(h, l + 1, h.nLayers);
    NextLayer(h, l);
    RowInMatrix(o, OutDim(h, l), h.hidden);
  }

  const PRODUCT := 16256  // 128 * 127

  lemma ProductBound(w: int, x: int)
    requires -128 <= w <= 127 && 0 <= x <= 127
    ensures -PRODUCT <= w * x <= PRODUCT
  {
    if w >= 0 { MulBound(w, x, 128, 127); } else { MulBound(-w, x, 128, 127); }
  }

  /** The accumulator stays far inside an i32. */
  lemma {:induction false} DotBound(model: seq<Byte>, a: nat, x: seq<int>, n: nat)
    requires n <= |x| && a + n <= |model| && Activations(x)
    ensures -PRODUCT * n <= Dot(model, a, x, n) <= PRODUCT * n
  {
    if n > 0 {
      DotBound(model, a, x, n - 1);
      ProductBound(ReadI8(model[a + n - 1]), x[n - 1]);
    }
  }

  // ---- the loops ----

  /** One row of the matrix product, with the saturating bias; the two addresses are those
      of the layer's weights and biases. */
  method Row(model: seq<Byte>, h: Header, l: nat, wPtr: nat, bPtr: nat, xbuf: array<int>, o: nat) returns (acc: I32)
    requires HasWeights(h, |model|) && l < h.nLayers && o < OutDim(h, l)
    requires wPtr == WeightAddr(h, l) && bPtr == BiasAddr(h, l)
    requires h.hidden <= MAX_WIDTH == xbuf.Length && Activations(xbuf[..])
    ensures acc as int == Neuron(model, h, l, xbuf[..], o)
  {
    hide Offset, OutDim, ReadI8, ReadI32, HasWeights;
    InsideModel(h, |model|, l, o);
    acc := 0;
    var row := wPtr + o * h.hidden;
    for p := 0 to h.hidden
      invariant acc as int == Dot(model, row, xbuf[..], p)
    {
      DotBound(model, row, xbuf[..], p);
      ProductBound(ReadI8(model[row + p]), xbuf[p]);
      var a := ReadI8(model[row + p]) as I32;
      var b := xbuf[p] as I32;
      acc := acc + a * b;
    }
    acc := SaturateI32(acc as int + ReadI32(model, bPtr + 4 * o)) as I32;
  }

  /** `v >>= shift` on a non-negative i32. */
  method ShiftRight(v: I32, shift: nat) returns (r: I32)
    requires v >= 0
    ensures r as int == v as int / Pow2(shift)
    ensures 0 <= r
  {
    r := v;
    for i := 0 to shift
      invariant 0 <= r && r as int == v as int / Pow2(i)
    {
      HalfAgain(v as int, Pow2(i));
      r := r / 2;
    }
  }

  lemma HalfAgain(v: nat, d: nat)
    requires d > 0
    ensures v / d / 2 == v / (2 * d)
  {
    var q, r := v / d, v % d;
    DivModUnique(v, 2 * d, q / 2, q % 2 * d + r);
  }

  lemma DataTypeIsInt8(h: Header, len: nat)
    requires HasWeights(h, len)
    ensures h.dtype == 0
  {
  }

  /** One round of the layer loop, in place: sums into scratch, activations into xbuf. */
  method LayerInPlace(model: seq<Byte>, h: Header, l: nat, xbuf: array<int>, scratch: array<I32>, shift: nat)
    requires HasWeights(h, |model|) && l < h.nLayers
    requires h.hidden <= MAX_WIDTH && OutDim(h, l) <= MAX_WIDTH
    requires xbuf.Length == MAX_WIDTH && scratch.Length == 1024 && Activations(xbuf[..])
    modifies xbuf, scratch
    ensures Activations(xbuf[..])
    ensures xbuf[..OutDim(h, l)] == Layer(model, h, l, old(xbuf[..]), shift)
  {
    hide Neuron, Offset, Requantise;
    var outDim := OutDim(h, l);
    DataTypeIsInt8(h, |model|);
    var wPtr := LayerPtr(0, h, l);
    var bPtr := BiasPtr(0, h, l);
    ghost var x := xbuf[..];
    for o := 0 to outDim
      invariant xbuf[..] == x
      invariant forall k :: 0 <= k < o ==> scratch[k] as int == Neuron(model, h, l, x, k)
    {
      scratch[o] := Row(model, h, l, wPtr.value, bPtr.value, xbuf, o);
    }
    for o := 0 to outDim
      invariant Activations(xbuf[..])
      invariant forall k :: 0 <= k < outDim ==> scratch[k] as int == Neuron(model, h, l, x, k)
      invariant forall k :: 0 <= k < o ==> xbuf[k] == Requantise(Neuron(model, h, l, x, k), shift)
    {
      xbuf[o] := RequantiseI32(scratch[o], shift);
    }
  }

  method RequantiseI32(sum: I32, shift: nat) returns (r: int)
    ensures r == Requantise(sum as int, shift) && 0 <= r <= 127
  {
    var v := sum;
    if v < 0 { v := 0; }
    v := ShiftRight(v, shift);
    if v > 127 { v := 127; }
    r := v as int;
  }

  /** The layer loop: the buffer ends up holding the mathematical fold. */
  method RunLayers(model: seq<Byte>, h: Header, t: Telemetry, shift: nat, xbuf: array<int>, scratch: array<I32>)
    returns (xLen: nat)
    requires HasWeights(h, |model|)
    requires xbuf.Length == MAX_WIDTH && scratch.Length == 1024
    requires Activations(xbuf[..]) && xbuf[..Width(h, 0)] == Features(h, t)
    modifies xbuf, scratch
    ensures Activations(xbuf[..]) && xLen == Width(h, LayersRun(h)) <= MAX_WIDTH
    ensures xbuf[..xLen] == Forward(model, h, t, shift, LayersRun(h))
  {
    hide HasWeights, Layer, LayersRun, Features;
    xLen := Width(h, 0);
    var l := 0;
    while l < h.nLayers
      invariant l <= LayersRun(h) && xLen == Width(h, l) <= MAX_WIDTH
      invariant Activations(xbuf[..])
      invariant xbuf[..xLen] == Forward(model, h, t, shift, l)
    {
      var dims := LayerDims(h, l).value;
      StopsOnlyThere(h, l);
      if dims.0 > xLen || dims.1 > 256 || dims.0 == 0 || dims.1 == 0 { return; }
      ghost var x := xbuf[..];
      LayerInPlace(model, h, l, xbuf, scratch, shift);
      SameInputs(model, h, l, x, x[..xLen], shift);
      xLen := dims.1;
      l := l + 1;
    }
  }

  /** Only the first `hidden` activations matter to a layer. */
  lemma SameInputs(model: seq<Byte>, h: Header, l: nat, x: seq<int>, y: seq<int>, shift: nat)
    requires HasWeights(h, |model|) && l < h.nLayers
    requires h.hidden <= |y| <= |x| && x[..|y|] == y
    ensures Layer(model, h, l, x, shift) == Layer(model, h, l, y, shift)
  {
    hide HasWeights, OutDim, ReadI32, Offset, Requantise, SaturateI32;
    forall o | 0 <= o < OutDim(h, l) ensures Neuron(model, h, l, x, o) == Neuron(model, h, l, y, o) {
      InsideModel(h, |model|, l, o);
      SameDot(model, WeightAddr(h, l) + o * h.hidden, x, y, h.hidden);
    }
  }

  lemma {:induction false} SameDot(model: seq<Byte>, a: nat, x: seq<int>, y: seq<int>, n: nat)
    requires n <= |y| <= |x| && x[..|y|] == y && a + n <= |model|
    ensures Dot(model, a, x, n) == Dot(model, a, y, n)
  {
    if n > 0 {
      SameDot(model, a, x, y, n - 1);
      assert y[n - 1] == x[..|y|][n - 1];
    }
  }

  // ---- from score to action ----

  /** Wrapping i32 arithmetic, as the release build computes it. */
  function WrapI32(v: int): (r: int)
    ensures -0x8000_0000 <= r < 0x8000_0000
    ensures -0x8000_0000 <= v < 0x8000_0000 ==> r == v
  {
    (v + 0x8000_0000) % U32_RANGE - 0x8000_0000
  }

  /** Division that rounds towards zero. */
  function TruncDiv(a: int, b: int): int
    requires b > 0
  {
    if a >= 0 then a / b else -(-a / b)
  }

  function Clamp127(v: int): (r: int)
    ensures -127 <= r <= 127
  {
    if v < -127 then -127 else if v > 127 then 127 else v
  }

  /** The score used when the weights are missing. */
  function Heuristic(t: Telemetry): int {
    var s1 := WrapI32(WrapI32(t.runq) + TruncDiv(WrapI32(t.irqRate), 2));
    var s2 := WrapI32(s1 - WrapI32(t.pfRate));
    Clamp127(WrapI32(s2 - t.freeKb / 1024 / 8))
  }

  /** Whenever a quantum can be proposed at all, with fewer than 127 tasks in the run queue
      (the table has 8 slots): the wrapping expression is the plain integer one if and only
      if the interrupt rate fits an i32. */
  lemma HeuristicIsExactIff(p: Preset, t: Telemetry)
    requires IsPreset(p) && IsTelemetry(t) && t.pfRate <= p.pfThresh && t.runq < 127
    ensures Heuristic(t) == Clamp127(t.runq + t.irqRate / 2 - t.pfRate - t.freeKb / 1024 / 8)
            <==> t.irqRate < 0x8000_0000
  {
    var mb := t.freeKb / 1024 / 8;
    assert 0 <= mb < 0x8_0000 && t.pfRate <= 1;
    if t.irqRate >= 0x8000_0000 {
      assert WrapI32(t.irqRate) == t.irqRate - U32_RANGE;
      assert -0x4000_0000 <= TruncDiv(WrapI32(t.irqRate), 2) <= 0;
    }
  }

  function Score(h: Header, t: Telemetry, model: seq<Byte>, p: Preset): (s: int)
    ensures -127 <= s <= 127
  {
    if HasWeights(h, |model|) then
      var x := Forward(model, h, t, p.shift, LayersRun(h));
      if |x| > 0 then x[0] else 0
    else Heuristic(t)
  }

  /** What the score is: the first neuron of the last layer that was evaluated, 0 if that is
      empty, and without weights the rule of thumb. */
  lemma ScoreMeaning(h: Header, t: Telemetry, model: seq<Byte>, p: Preset)
    requires IsPreset(p) && IsTelemetry(t)
    ensures HasWeights(h, |model|) && Width(h, LayersRun(h)) > 0 ==>
      Score(h, t, model, p) == Forward(model, h, t, p.shift, LayersRun(h))[0]
    ensures HasWeights(h, |model|) && Width(h, LayersRun(h)) == 0 ==> Score(h, t, model, p) == 0
    ensures !HasWeights(h, |model|) && t.pfRate <= p.pfThresh && t.runq < 127 && t.irqRate < 0x8000_0000 ==>
      Score(h, t, model, p) == Clamp127(t.runq + t.irqRate / 2 - t.pfRate - t.freeKb / 1024 / 8)
  {
    hide Forward, Heuristic, HasWeights;
    if t.pfRate <= p.pfThresh && t.runq < 127 { HeuristicIsExactIff(p, t); }
  }

  function Clamp(v: int, lo: nat, hi: nat): nat {
    if v < lo then lo else if v > hi then hi else v
  }

  function Proposal(p: Preset, t: Telemetry, score: int): Action {
    if t.freeKb < p.memLowKb || t.pfRate > p.pfThresh
    then Action(TRIM_CACHE, REQUIRES_SNAPSHOT, 1024 * 1024, 0, 0)
    else Action(SET_QUANTUM, REQUIRES_SNAPSHOT, Clamp(p.quantumBase + score * p.quantumScale, 100, 50_000), 0, 0)
  }

  /** The decision the agent is meant to take: with little memory or frequent page faults
      it asks for 1 MiB of cache, otherwise for a quantum linear in the score, not below
      100 and not above 50000. */
  predicate Answers(p: Preset, t: Telemetry, score: int, a: Action) {
    var wanted := p.quantumBase + p.quantumScale * score;
    && a.flags == 1 && a.param2 == 0 && a.param3 == 0
    && (a.kind == 4 <==> t.freeKb < p.memLowKb || p.pfThresh < t.pfRate)
    && (a.kind == 4 ==> a.param1 == 0x10_0000)
    && (a.kind != 4 ==> a.kind == 1 && 100 <= a.param1 <= 50_000)
    && (a.kind != 4 && 100 <= wanted <= 50_000 ==> a.param1 == wanted)
    && (a.kind != 4 && wanted < 100 ==> a.param1 == 100)
    && (a.kind != 4 && 50_000 < wanted ==> a.param1 == 50_000)
  }

  lemma ProposalAnswers(p: Preset, t: Telemetry, score: int)
    ensures Answers(p, t, score, Proposal(p, t, score))
  {
    assert p.quantumScale * score == score * p.quantumScale;
  }

  /** A higher score never asks for a shorter quantum, and asks for a longer one wherever
      the limits allow it. */
  lemma QuantumIsMonotone(p: Preset, t: Telemetry, low: int, high: int, a: Action, b: Action)
    requires IsPreset(p) && low < high && Answers(p, t, low, a) && Answers(p, t, high, b)
    ensures a.kind == b.kind && a.param1 <= b.param1
    ensures a.kind == 1 && 100 <= p.quantumBase + p.quantumScale * low && b.param1 < 50_000 ==> a.param1 < b.param1
  {
    MulMonotone(low + 1, high, p.quantumScale);
    assert (low + 1) * p.quantumScale == p.quantumScale * low + p.quantumScale;
    assert high * p.quantumScale == p.quantumScale * high;
  }

  /** Whatever the score, a proposal of any preset is one the kernel admits; a proposed
      quantum is at least 100 and its upper clamp is never reached. */
  lemma ProposalsAreAdmissible(p: Preset, t: Telemetry, score: int)
    requires IsPreset(p) && -127 <= score <= 127
    ensures var a := Proposal(p, t, score);
      && Admissible(a)
      && a.flags == REQUIRES_SNAPSHOT
      && (a.kind == SET_QUANTUM ==> 100 <= a.param1 <= p.quantumBase + 127 * p.quantumScale < 50_000)
  {
    MulMonotone(score, 127, p.quantumScale);
  }

  /** `infer_and_propose`.  `model` is what lies between AI_MODEL_ADDR and
      AI_MODEL_ADDR + AI_MODEL_LEN; every read of it is in range. */
  method InferAndPropose(h: Header, t: Telemetry, scratch: array<I32>, model: seq<Byte>, p: Preset) returns (a: Action)
    requires IsPreset(p) && IsTelemetry(t) && scratch.Length == 1024
    modifies scratch
    ensures a == Proposal(p, t, Score(h, t, model, p))
    ensures Answers(p, t, Score(h, t, model, p), a)
    ensures Admissible(a)
    ensures a.kind == SET_QUANTUM ==> 100 <= a.param1 <= p.quantumBase + 127 * p.quantumScale
  {
    hide Forward, Offset, LayersRun, Answers;
    var inLen := if h.hidden <= MAX_WIDTH then h.hidden else MAX_WIDTH;
    var xbuf := new int[MAX_WIDTH](_ => 0);
    if inLen > 0 { xbuf[0] := Min(t.runq, 127); }
    if inLen > 1 { xbuf[1] := Min(t.irqRate, 127); }
    if inLen > 2 { xbuf[2] := Min(t.freeKb / 1024, 127); }
    if inLen > 3 { xbuf[3] := Min(t.pfRate, 127); }
    assert Activations(xbuf[..]);
    assert xbuf[..inLen] == Features(h, t);
    var layout := ComputeLayout(h);
    var need := if layout.Some? then layout.value + PAYLOAD_OFFSET else 0;
    var hasWeights := need > PAYLOAD_OFFSET && |model| >= need;
    assert hasWeights <==> HasWeights(h, |model|);
    var xLen := inLen;
    if hasWeights && h.dtype == 0 {
      xLen := RunLayers(model, h, t, p.shift, xbuf, scratch);
    }
    var score := if xLen > 0 then xbuf[0] else 0;
    if hasWeights {
      assert xLen > 0 ==> xbuf[..xLen][0] == xbuf[0];
    } else {
      score := HeuristicScore(t);
    }
    assert score == Score(h, t, model, p);
    a := Decide(p, t, score);
  }

  method HeuristicScore(t: Telemetry) returns (score: int)
    ensures score == Heuristic(t) && -127 <= score <= 127
  {
    var freeMb := t.freeKb / 1024;
    score := WrapI32(WrapI32(t.runq) + TruncDiv(WrapI32(t.irqRate), 2));
    score := WrapI32(score - WrapI32(t.pfRate));
    score := WrapI32(score - freeMb / 8);
    if score < -127 { score := -127; }
    if score > 127 { score := 127; }
  }

  method Decide(p: Preset, t: Telemetry, score: int) returns (a: Action)
    requires IsPreset(p) && -127 <= score <= 127
    ensures a == Proposal(p, t, score) && Answers(p, t, score, a) && Admissible(a)
    ensures a.kind == SET_QUANTUM ==> 100 <= a.param1 <= p.quantumBase + 127 * p.quantumScale
  {
    ProposalsAreAdmissible(p, t, score);
    ProposalAnswers(p, t, score);
    hide Answers;
    if t.freeKb < p.memLowKb || t.pfRate > p.pfThresh {
      return Action(TRIM_CACHE, REQUIRES_SNAPSHOT, 1024 * 1024, 0, 0);
    }
    var quantum := p.quantumBase + score * p.quantumScale;
    if quantum < 100 { quantum := 100; }
    if quantum > 50_000 { quantum := 50_000; }
    return Action(SET_QUANTUM, REQUIRES_SNAPSHOT, quantum, 0, 0);
  }
}
