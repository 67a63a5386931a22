/** The AIMD model file: the generator that writes it and the offset arithmetic that
    reads it.  A 16-byte header is followed, layer by layer, by the int8 weights (one row
    per output) and the little-endian i32 biases. */
module Aimd {
  import opened Bytes
  import opened RingArithmetic

  const MAGIC: seq<Byte> := [0x41, 0x49, 0x4D, 0x44]  // AIMD
  const PAYLOAD_OFFSET := 16

  datatype Fields = Fields(magic: seq<Byte>, nLayers: nat, hidden: nat, vocab: nat, dtype: nat)

  /** `ModelHeader`: a u16, a u16, a u32 and a u8 after the magic. */
  type Header = h: Fields | h.nLayers < 0x1_0000 && h.hidden < 0x1_0000 && h.vocab < U32_RANGE && h.dtype < 256
    witness Fields([], 0, 0, 0, 0)

  predicate Valid(h: Header) {
    h.magic == MAGIC && h.nLayers >= 1 && h.hidden >= 1 && (h.dtype == 0 || h.dtype == 1)
  }

  // ---- little-endian numbers ----

  /** Byte r of a 32-bit two's-complement number. */
  function ByteOf(v: int, r: nat): Byte
    requires r < 4
  {
    var u := v % U32_RANGE;
    if r == 0 then u % 0x100 else if r == 1 then u / 0x100 % 0x100
    else if r == 2 then u / 0x100 / 0x100 % 0x100 else u / 0x100 / 0x100 / 0x100 % 0x100
  }

  function Unsigned16(b0: Byte, b1: Byte): (n: nat)
    ensures n < 0x1_0000
  {
    b0 as nat + b1 as nat * 0x100
  }

  function Unsigned32(b0: Byte, b1: Byte, b2: Byte, b3: Byte): (n: nat)
    ensures n < U32_RANGE
  {
    Unsigned16(b0, b1) + Unsigned16(b2, b3) * 0x1_0000
  }

  /** The i32 at `off`. */
  function ReadI32(b: seq<Byte>, off: nat): (v: int)
    requires off + 4 <= |b|
    ensures -0x8000_0000 <= v < 0x8000_0000
  {
    var u := Unsigned32(b[off], b[off + 1], b[off + 2], b[off + 3]);
    if u < 0x8000_0000 then u else u - U32_RANGE
  }

  function ReadI8(b: Byte): (v: int)
    ensures -128 <= v < 128
  {
    if b < 128 then b else b - 256
  }

  predicate IsI8(v: int) { -128 <= v < 128 }

  predicate IsI32(v: int) { -0x8000_0000 <= v < 0x8000_0000 }

  lemma BytesRoundTrip(v: int)
    ensures Unsigned32(ByteOf(v, 0), ByteOf(v, 1), ByteOf(v, 2), ByteOf(v, 3)) == v % U32_RANGE
  {
    var u := v % U32_RANGE;
    var q1 := u / 0x100;
    var q2 := q1 / 0x100;
    var q3 := q2 / 0x100;
    assert q1 < 0x100_0000 && q2 < 0x1_0000 && q3 < 0x100;
  }

  /** The number whose bytes these are, lowest first. */
  function LittleEndian(b: seq<Byte>): nat {
    if b == [] then 0 else b[0] as nat + 0x100 * LittleEndian(b[1..])
  }

  lemma BytesAreLittleEndian(b: seq<Byte>, v: int)
    requires b == [ByteOf(v, 0), ByteOf(v, 1), ByteOf(v, 2), ByteOf(v, 3)]
    ensures LittleEndian(b) == v % U32_RANGE
  {
    BytesRoundTrip(v);
    hide ByteOf;
    assert b[1..][1..] == b[2..] && b[2..][1..] == b[3..] && b[3..][1..] == [];
    assert LittleEndian(b[3..]) == b[3] && LittleEndian(b[2..]) == b[2] as nat + 0x100 * b[3] as nat;
    assert LittleEndian(b[1..]) == b[1] as nat + 0x100 * LittleEndian(b[2..]);
  }

  lemma I32RoundTrip(v: int)
    requires IsI32(v)
    ensures ReadI32([ByteOf(v, 0), ByteOf(v, 1), ByteOf(v, 2), ByteOf(v, 3)], 0) == v
  {
    BytesRoundTrip(v);
    assert v % U32_RANGE == if v >= 0 then v else v + U32_RANGE;
  }

  /** `read_unaligned` of the 16 header bytes. */
  function ReadHeader(b: seq<Byte>): Header
    requires |b| >= PAYLOAD_OFFSET
  {
    Fields(b[..4], Unsigned16(b[4], b[5]), Unsigned16(b[6], b[7]), Unsigned32(b[8], b[9], b[10], b[11]), b[12])
  }

  // ---- layout ----

  function LastOut(h: Header): nat {
    if h.vocab != 0 then h.vocab else h.hidden
  }

  function OutDim(h: Header, l: nat): nat {
    if l + 1 == h.nLayers then LastOut(h) else h.hidden
  }

  function LayerDims(h: Header, l: nat): Option<(nat, nat)> {
    if l >= h.nLayers then None else Some((h.hidden, OutDim(h, l)))
  }

  function LayerBytes(h: Header, l: nat): nat {
    h.hidden * OutDim(h, l) + OutDim(h, l) * 4
  }

  /** Exact size of the first l layers. */
  function Offset(h: Header, l: nat): nat {
    if l == 0 then 0 else Offset(h, l - 1) + LayerBytes(h, l - 1)
  }

  function WeightAddr(h: Header, l: nat): nat {
    PAYLOAD_OFFSET + Offset(h, l)
  }

  function BiasAddr(h: Header, l: nat): nat {
    PAYLOAD_OFFSET + Offset(h, l) + h.hidden * OutDim(h, l)
  }

  /** The weights of the first layer follow the header, a layer's biases follow its weights,
      and the next layer's weights its biases. */
  lemma NextLayer(h: Header, l: nat)
    ensures WeightAddr(h, 0) == 16 && BiasAddr(h, l) == WeightAddr(h, l) + h.hidden * OutDim(h, l)
    ensures WeightAddr(h, l + 1) == BiasAddr(h, l) + 4 * OutDim(h, l)
  {
  }

  /** Row o of a matrix of n rows of w cells ends inside it. */
  lemma RowInMatrix(o: nat, n: nat, w: nat)
    requires o < n
    ensures o * w + w <= w * n
  {
    MulMonotone(o + 1, n, w);
  }

  lemma MulBound(a: nat, b: nat, m: nat, n: nat)
    requires a <= m && b <= n
    ensures a * b <= m * n
  {
    MulMonotone(a, m, b);
    assert m * b <= m * n by { MulMonotone(b, n, m); }
  }

  const SQUARE_LAYER := 0x1_0004_0000  // above any layer that is hidden by hidden
  const LAST_LAYER := 0x1_0004_0000_0000

  lemma LayerBound(h: Header, l: nat)
    ensures h.hidden * OutDim(h, l) < LAST_LAYER && LayerBytes(h, l) < LAST_LAYER
    ensures l + 1 != h.nLayers ==> LayerBytes(h, l) < SQUARE_LAYER
  {
    MulBound(h.hidden, OutDim(h, l), 0xFFFF, 0xFFFF_FFFF);
    if l + 1 != h.nLayers { MulBound(h.hidden, h.hidden, 0xFFFF, 0xFFFF); }
  }

  /** For all u16, u16 and u32 fields the exact sums stay far below 2^64. */
  lemma {:induction false} OffsetBound(h: Header, l: nat)
    requires l <= h.nLayers
    ensures Offset(h, l) <= l * SQUARE_LAYER + (if l == h.nLayers then LAST_LAYER else 0)
    ensures Offset(h, l) < 0x3_0000_0000_0000
  {
    if l > 0 {
      OffsetBound(h, l - 1);
      LayerBound(h, l - 1);
    }
  }

  lemma {:induction false} OffsetMonotone(h: Header, k: nat, l: nat)
    requires k <= l
    ensures Offset(h, k) <= Offset(h, l)
  {
    if k < l { OffsetMonotone(h, k, l - 1); }
  }

  /** One round of the three accumulation loops: saturation never happens. */
  lemma NoSaturation(h: Header, l: nat)
    requires l < h.nLayers
    ensures SaturatingAdd(Offset(h, l), SaturatingMul(h.hidden, OutDim(h, l))) ==
            Offset(h, l) + h.hidden * OutDim(h, l)
    ensures SaturatingAdd(Offset(h, l) + h.hidden * OutDim(h, l), SaturatingMul(OutDim(h, l), 4)) == Offset(h, l + 1)
  {
    OffsetBound(h, l);
    LayerBound(h, l);
  }

  /** `WeightsLayout::compute`: in saturating 64-bit arithmetic, yet exact. */
  method ComputeLayout(h: Header) returns (total: Option<nat>)
    ensures total == if h.dtype != 0 || h.nLayers == 0 then None else Some(Offset(h, h.nLayers))
  {
    if h.dtype != 0 { return None; }
    if h.nLayers == 0 { return None; }
    var t := 0;
    for l := 0 to h.nLayers
      invariant t == Offset(h, l)
    {
      var outDim := if l + 1 == h.nLayers then LastOut(h) else h.hidden;
      NoSaturation(h, l);
      t := SaturatingAdd(t, SaturatingMul(h.hidden, outDim));
      t := SaturatingAdd(t, SaturatingMul(outDim, 4));
    }
    return Some(t);
  }

  method LayerPtr(base: nat, h: Header, layer: nat) returns (p: Option<nat>)
    ensures p == if h.dtype != 0 || layer >= h.nLayers then None else Some(base + WeightAddr(h, layer))
  {
    if h.dtype != 0 || layer >= h.nLayers { return None; }
    var offset := 0;
    for l := 0 to layer
      invariant offset == Offset(h, l)
    {
      var outDim := if l + 1 == h.nLayers then LastOut(h) else h.hidden;
      NoSaturation(h, l);
      offset := SaturatingAdd(offset, SaturatingMul(h.hidden, outDim));
      offset := SaturatingAdd(offset, SaturatingMul(outDim, 4));
    }
    return Some(base + (PAYLOAD_OFFSET + offset));
  }

  method BiasPtr(base: nat, h: Header, layer: nat) returns (p: Option<nat>)
    ensures p == if h.dtype != 0 || layer >= h.nLayers then None else Some(base + BiasAddr(h, layer))
  {
    if h.dtype != 0 || layer >= h.nLayers { return None; }
    var offset := 0;
    for l := 0 to layer
      invariant offset == Offset(h, l)
    {
      var outDim := if l + 1 == h.nLayers then LastOut(h) else h.hidden;
      NoSaturation(h, l);
      offset := SaturatingAdd(offset, SaturatingMul(h.hidden, outDim));
      offset := SaturatingAdd(offset, SaturatingMul(outDim, 4));
    }
    var dims := LayerDims(h, layer);
    NoSaturation(h, layer);
    offset := SaturatingAdd(offset, SaturatingMul(dims.value.0, dims.value.1));
    return Some(base + (PAYLOAD_OFFSET + offset));
  }

  predicate InLayer(h: Header, l: nat, p: nat) {
    Offset(h, l) <= p < Offset(h, l + 1)
  }

  /** Every payload byte belongs to exactly one layer: no gap, no overlap. */
  lemma {:induction false} LayersTile(h: Header, n: nat, p: nat)
    requires p < Offset(h, n)
    ensures exists l: nat :: l < n && InLayer(h, l, p)
    ensures forall k: nat, l: nat :: InLayer(h, k, p) && InLayer(h, l, p) ==> k == l
  {
    hide LayerBytes;
    if p < Offset(h, n - 1) {
      LayersTile(h, n - 1, p);
    } else {
      assert InLayer(h, n - 1, p);
    }
    forall k: nat, l: nat | InLayer(h, k, p) && InLayer(h, l, p)
      ensures k == l
    {
      if k < l { OffsetMonotone(h, k + 1, l); }
      if l < k { OffsetMonotone(h, l + 1, k); }
    }
  }

  // ---- the generator ----

  /** Everything `gen_ai_mod` is told or draws at random. */
  datatype Net = Net(layers: int, hidden: int, vocab: int, weights: seq<seq<int>>, biases: seq<seq<int>>)

  /** The arguments it accepts: the two tests and the ranges of struct.pack. */
  predicate Accepted(m: Net) {
    1 <= m.layers < 0x1_0000 && 1 <= m.hidden < 0x1_0000 && 0 <= m.vocab < U32_RANGE
  }

  function HeaderOf(m: Net): Header
    requires Accepted(m)
  {
    Fields(MAGIC, m.layers, m.hidden, m.vocab, 0)
  }

  /** One weight per matrix cell and one bias per output, each in range for its width. */
  predicate Drawn(m: Net) {
    Accepted(m) ==>
      && |m.weights| == m.layers && |m.biases| == m.layers
      && forall l :: 0 <= l < m.layers ==>
           && |m.weights[l]| == OutDim(HeaderOf(m), l) * m.hidden
           && |m.biases[l]| == OutDim(HeaderOf(m), l)
           && (forall i :: 0 <= i < |m.weights[l]| ==> IsI8(m.weights[l][i]))
           && (forall i :: 0 <= i < |m.biases[l]| ==> IsI32(m.biases[l][i]))
  }

  function HeaderBytes(m: Net): (b: seq<Byte>)
    requires Accepted(m)
    ensures |b| == PAYLOAD_OFFSET
  {
    MAGIC + [m.layers % 0x100, m.layers / 0x100, m.hidden % 0x100, m.hidden / 0x100,
             ByteOf(m.vocab, 0), ByteOf(m.vocab, 1), ByteOf(m.vocab, 2), ByteOf(m.vocab, 3), 0, 0, 0, 0]
  }

  function WeightBytes(ws: seq<int>): (b: seq<Byte>)
    ensures |b| == |ws|
  {
    seq(|ws|, i requires 0 <= i < |ws| => ws[i] % 256)
  }

  function BiasBytes(bs: seq<int>): (b: seq<Byte>)
    ensures |b| == 4 * |bs|
  {
    seq(4 * |bs|, j requires 0 <= j < 4 * |bs| => ByteOf(bs[j / 4], j % 4))
  }

  function Payload(m: Net, l: nat): seq<Byte>
    requires Accepted(m) && Drawn(m) && l <= m.layers
  {
    if l == 0 then [] else Payload(m, l - 1) + WeightBytes(m.weights[l - 1]) + BiasBytes(m.biases[l - 1])
  }

  function FileOf(m: Net): seq<Byte>
    requires Accepted(m) && Drawn(m)
  {
    HeaderBytes(m) + Payload(m, m.layers)
  }

  /** How the generator ends: it may stop before it opens the file, or in the middle of the
      header, when a number does not fit its field. */
  datatype Generated = Refused | Partial(bytes: seq<Byte>) | Complete(bytes: seq<Byte>)

  function Le16(n: int): seq<Byte>
    requires 0 <= n < 0x1_0000
  {
    [n % 0x100, n / 0x100]
  }

  /** The header as far as it can be packed. */
  function HeaderStart(m: Net): seq<Byte>
    requires m.layers >= 1 && m.hidden >= 1 && !Accepted(m)
  {
    if m.layers >= 0x1_0000 then MAGIC
    else if m.hidden >= 0x1_0000 then MAGIC + Le16(m.layers)
    else MAGIC + Le16(m.layers) + Le16(m.hidden)
  }

  /** `gen_ai_mod`: the whole file for arguments in range; what is left on disk otherwise is
      never as long as a header. */
  method GenAiMod(m: Net, int8: bool) returns (g: Generated)
    requires Drawn(m)
    ensures g.Refused? <==> !int8 || m.layers < 1 || m.hidden < 1
    ensures g.Complete? <==> int8 && Accepted(m)
    ensures g.Complete? ==> g.bytes == FileOf(m)
    ensures g.Partial? ==> g.bytes == HeaderStart(m) && |g.bytes| < PAYLOAD_OFFSET
  {
    if !int8 { return Refused; }
    if m.layers < 1 || m.hidden < 1 { return Refused; }
    var f := MAGIC;
    if m.layers >= 0x1_0000 { return Partial(f); }
    f := f + Le16(m.layers);
    if m.hidden >= 0x1_0000 { return Partial(f); }
    f := f + Le16(m.hidden);
    if m.vocab < 0 || m.vocab >= U32_RANGE { return Partial(f); }
    f := f + [ByteOf(m.vocab, 0), ByteOf(m.vocab, 1), ByteOf(m.vocab, 2), ByteOf(m.vocab, 3)];
    f := f + [0];
    f := f + [0, 0, 0];
    assert f == HeaderBytes(m);
    f := WritePayload(m, f);
    return Complete(f);
  }

  /** The loop over the layers. */
  method WritePayload(m: Net, header: seq<Byte>) returns (f: seq<Byte>)
    requires Accepted(m) && Drawn(m)
    ensures f == header + Payload(m, m.layers)
  {
    f := header;
    for l := 0 to m.layers
      invariant f == header + Payload(m, l)
    {
      var inDim := m.hidden;
      var outDim := if l + 1 < m.layers then m.hidden else if m.vocab > 0 then m.vocab else m.hidden;
      var ws := WriteWeights(m.weights[l], outDim * inDim);
      var bs := WriteBiases(m.biases[l], outDim);
      f := f + ws + bs;
      assert f == header + (Payload(m, l) + ws + bs);
    }
  }

  method WriteWeights(ws: seq<int>, n: nat) returns (b: seq<Byte>)
    requires |ws| == n
    ensures b == WeightBytes(ws)
  {
    b := [];
    for i := 0 to n
      invariant b == WeightBytes(ws[..i])
    {
      b := b + [ws[i] % 256];
    }
    assert ws[..n] == ws;
  }

  method WriteBiases(bs: seq<int>, n: nat) returns (b: seq<Byte>)
    requires |bs| == n
    ensures b == BiasBytes(bs)
  {
    b := [];
    for i := 0 to n
      invariant b == BiasBytes(bs[..i])
    {
      b := b + [ByteOf(bs[i], 0), ByteOf(bs[i], 1), ByteOf(bs[i], 2), ByteOf(bs[i], 3)];
    }
    assert bs[..n] == bs;
  }

  // ---- round trip ----

  lemma {:induction false} PayloadLength(m: Net, l: nat)
    requires Accepted(m) && Drawn(m) && l <= m.layers
    ensures |Payload(m, l)| == Offset(HeaderOf(m), l)
  {
    if l > 0 { PayloadLength(m, l - 1); }
  }

  lemma {:induction false} PayloadPrefix(m: Net, k: nat, l: nat)
    requires Accepted(m) && Drawn(m) && k <= l <= m.layers
    ensures Payload(m, k) <= Payload(m, l)
  {
    if k < l { PayloadPrefix(m, k, l - 1); }
  }

  lemma Halves(n: nat)
    requires n < 0x1_0000
    ensures Unsigned16(n % 0x100, n / 0x100) == n
  {
  }

  lemma HeaderRoundTrip(m: Net)
    requires Accepted(m)
    ensures ReadHeader(HeaderBytes(m)) == HeaderOf(m)
  {
    hide ByteOf, Unsigned16, Unsigned32, MAGIC;
    BytesRoundTrip(m.vocab);
    SmallMod(m.vocab);
    Halves(m.layers);
    Halves(m.hidden);
    assert HeaderBytes(m)[..4] == MAGIC;
  }

  lemma HeaderIsLittleEndian(m: Net)
    requires Accepted(m)
    ensures var b := HeaderBytes(m);
      && b[..4] == [0x41, 0x49, 0x4D, 0x44]
      && LittleEndian(b[4..6]) == m.layers && LittleEndian(b[6..8]) == m.hidden
      && LittleEndian(b[8..12]) == m.vocab && b[12..16] == [0, 0, 0, 0]
  {
    var b := HeaderBytes(m);
    TwoBytes(b[4..6], m.layers);
    TwoBytes(b[6..8], m.hidden);
    BytesAreLittleEndian(b[8..12], m.vocab);
    SmallMod(m.vocab);
  }

  lemma TwoBytes(b: seq<Byte>, v: nat)
    requires v < 0x1_0000 && b == [v % 0x100, v / 0x100]
    ensures LittleEndian(b) == v
  {
    assert b[1..] == [v / 0x100] && b[1..][1..] == [];
    assert LittleEndian(b[1..]) == v / 0x100;
  }

  lemma SmallMod(v: nat)
    requires v < U32_RANGE
    ensures v % U32_RANGE == v
  {
  }

  /** What the reader makes of any 16 bytes: four little-endian numbers behind the magic, and
      a valid header if and only if they spell AIMD, both counts are positive and the data
      type is 0 or 1. */
  lemma HeaderFields(b: seq<Byte>)
    requires |b| >= 16
    ensures var h := ReadHeader(b);
      && h.nLayers == LittleEndian(b[4..6]) && h.hidden == LittleEndian(b[6..8])
      && h.vocab == LittleEndian(b[8..12]) && h.dtype == b[12]
      && (Valid(h) <==> Spells(b[..4], "AIMD") && LittleEndian(b[4..6]) > 0 && LittleEndian(b[6..8]) > 0 && b[12] <= 1)
  {
    TwoRead(b[4..6]);
    TwoRead(b[6..8]);
    FourRead(b[8..12]);
    hide LittleEndian, Unsigned16, Unsigned32;
    assert Spells(b[..4], "AIMD") <==> b[..4] == MAGIC;
  }

  lemma TwoRead(b: seq<Byte>)
    requires |b| == 2
    ensures LittleEndian(b) == Unsigned16(b[0], b[1])
  {
    assert b[1..][1..] == [] && LittleEndian(b[1..]) == b[1];
  }

  lemma FourRead(b: seq<Byte>)
    requires |b| == 4
    ensures LittleEndian(b) == Unsigned32(b[0], b[1], b[2], b[3])
  {
    TwoRead(b[2..]);
    assert b[1..][1..] == b[2..] && LittleEndian(b[1..]) == b[1] as nat + 0x100 * LittleEndian(b[2..]);
  }

  /** The file is exactly as long as the reader computes, and its header reads back. */
  lemma FileShape(m: Net)
    requires Accepted(m) && Drawn(m)
    ensures |FileOf(m)| == PAYLOAD_OFFSET + Offset(HeaderOf(m), m.layers)
    ensures ReadHeader(FileOf(m)) == HeaderOf(m) && Valid(HeaderOf(m))
    ensures var f := FileOf(m);
      && f[..4] == [0x41, 0x49, 0x4D, 0x44]
      && LittleEndian(f[4..6]) == m.layers && LittleEndian(f[6..8]) == m.hidden
      && LittleEndian(f[8..12]) == m.vocab && f[12..16] == [0, 0, 0, 0]
  {
    PayloadLength(m, m.layers);
    HeaderRoundTrip(m);
    HeaderIsLittleEndian(m);
    hide HeaderBytes, Payload, Offset, Drawn, Unsigned16, Unsigned32, LittleEndian;
    var f, b := FileOf(m), HeaderBytes(m);
    assert f[..4] == b[..4] && f[4..6] == b[4..6] && f[6..8] == b[6..8];
    assert f[8..12] == b[8..12] && f[12..16] == b[12..16];
  }

  lemma DrawnLayer(m: Net, l: nat)
    requires Accepted(m) && Drawn(m) && l < m.layers
    ensures l < |m.weights| == |m.biases| == m.layers
    ensures |m.weights[l]| == HeaderOf(m).hidden * OutDim(HeaderOf(m), l) && |m.biases[l]| == OutDim(HeaderOf(m), l)
    ensures forall j :: 0 <= j < |m.weights[l]| ==> IsI8(m.weights[l][j])
    ensures forall o :: 0 <= o < |m.biases[l]| ==> IsI32(m.biases[l][o])
  {
  }

  /** Bytes of a slice keep their place. */
  lemma SliceOf(b: seq<Byte>, pre: seq<Byte>, mid: seq<Byte>, from: nat)
    requires from + |pre| + |mid| <= |b| && b[from..from + |pre| + |mid|] == pre + mid
    ensures b[from + |pre|..from + |pre| + |mid|] == mid
  {
    forall i | 0 <= i < |mid| ensures b[from + |pre| + i] == mid[i] {
      assert b[from..from + |pre| + |mid|][|pre| + i] == (pre + mid)[|pre| + i];
    }
  }

  lemma AfterPrefix(h: seq<Byte>, p: seq<Byte>, q: seq<Byte>)
    requires p <= q
    ensures (h + q)[|h|..|h| + |p|] == p
  {
  }

  lemma PayloadInFile(m: Net, l: nat)
    requires Accepted(m) && Drawn(m) && l <= m.layers
    ensures var n := |Payload(m, l)|;
      PAYLOAD_OFFSET + n <= |FileOf(m)| && FileOf(m)[PAYLOAD_OFFSET..PAYLOAD_OFFSET + n] == Payload(m, l)
  {
    hide Drawn, HeaderBytes, Payload;
    PayloadPrefix(m, l, m.layers);
    AfterPrefix(HeaderBytes(m), Payload(m, l), Payload(m, m.layers));
  }

  /** Where the weights of layer l lie in the file. */
  lemma WeightsPlace(m: Net, l: nat)
    requires Accepted(m) && Drawn(m) && l < m.layers
    ensures var a, n := WeightAddr(HeaderOf(m), l), |m.weights[l]|;
      a + n <= |FileOf(m)| && FileOf(m)[a..a + n] == WeightBytes(m.weights[l])
  {
    hide FileOf, Drawn, WeightBytes, BiasBytes, Offset;
    DrawnLayer(m, l);
    var pre, mid := Payload(m, l), WeightBytes(m.weights[l]);
    PayloadInFile(m, l + 1);
    PayloadLength(m, l);
    assert (pre + mid + BiasBytes(m.biases[l]))[..|pre| + |mid|] == pre + mid;
    var f := FileOf(m);
    assert f[PAYLOAD_OFFSET..PAYLOAD_OFFSET + |Payload(m, l + 1)|][..|pre| + |mid|] ==
           f[PAYLOAD_OFFSET..PAYLOAD_OFFSET + |pre| + |mid|];
    SliceOf(f, pre, mid, PAYLOAD_OFFSET);
  }

  lemma BiasesPlace(m: Net, l: nat)
    requires Accepted(m) && Drawn(m) && l < m.layers
    ensures var a, n := BiasAddr(HeaderOf(m), l), 4 * |m.biases[l]|;
      a + n <= |FileOf(m)| && FileOf(m)[a..a + n] == BiasBytes(m.biases[l])
  {
    hide FileOf, Drawn, WeightBytes, BiasBytes, Offset;
    DrawnLayer(m, l);
    var pre, mid := Payload(m, l) + WeightBytes(m.weights[l]), BiasBytes(m.biases[l]);
    PayloadInFile(m, l + 1);
    PayloadLength(m, l);
    SliceOf(FileOf(m), pre, mid, PAYLOAD_OFFSET);
  }

  /** Round trip of the weights: the byte at the reader's address for cell j of layer l
      (row o, column i is cell o * hidden + i) is the weight the generator drew. */
  lemma WeightRoundTrip(m: Net, l: nat, j: nat)
    requires Accepted(m) && Drawn(m) && l < m.layers && j < |m.weights[l]|
    ensures var a := WeightAddr(HeaderOf(m), l) + j;
      a < |FileOf(m)| && ReadI8(FileOf(m)[a]) == m.weights[l][j]
  {
    hide FileOf, Offset, Drawn;
    DrawnLayer(m, l);
    WeightsPlace(m, l);
    var a, f := WeightAddr(HeaderOf(m), l), FileOf(m);
    assert f[a + j] == f[a..a + |m.weights[l]|][j] == m.weights[l][j] % 256;
  }

  /** Where bias o of layer l lies in the file. */
  lemma BiasPlace(m: Net, l: nat, o: nat)
    requires Accepted(m) && Drawn(m) && l < m.layers && o < |m.biases[l]|
    ensures var a, v := BiasAddr(HeaderOf(m), l) + 4 * o, m.biases[l][o];
      a + 4 <= |FileOf(m)| && FileOf(m)[a..a + 4] == [ByteOf(v, 0), ByteOf(v, 1), ByteOf(v, 2), ByteOf(v, 3)]
  {
    hide FileOf, Offset, ByteOf, Drawn;
    DrawnLayer(m, l);
    BiasesPlace(m, l);
    var a, f, bs := BiasAddr(HeaderOf(m), l), FileOf(m), m.biases[l];
    forall r | 0 <= r < 4 ensures f[a + 4 * o + r] == ByteOf(bs[o], r) {
      assert f[a..a + 4 * |bs|][4 * o + r] == BiasBytes(bs)[4 * o + r];
    }
    hide BiasBytes;
    assert f[a + 4 * o + 0] == ByteOf(bs[o], 0) && f[a + 4 * o + 1] == ByteOf(bs[o], 1);
    assert f[a + 4 * o + 2] == ByteOf(bs[o], 2) && f[a + 4 * o + 3] == ByteOf(bs[o], 3);
  }

  /** Round trip of the biases; they are stored lowest byte first. */
  lemma BiasRoundTrip(m: Net, l: nat, o: nat)
    requires Accepted(m) && Drawn(m) && l < m.layers && o < |m.biases[l]|
    ensures var a := BiasAddr(HeaderOf(m), l) + 4 * o;
      && a + 4 <= |FileOf(m)| && ReadI32(FileOf(m), a) == m.biases[l][o]
      && LittleEndian(FileOf(m)[a..a + 4]) == m.biases[l][o] % U32_RANGE
  {
    hide FileOf, Offset, ByteOf, Drawn, Unsigned32, LittleEndian;
    DrawnLayer(m, l);
    BiasPlace(m, l, o);
    var a, v := BiasAddr(HeaderOf(m), l) + 4 * o, m.biases[l][o];
    I32RoundTrip(v);
    BytesAreLittleEndian(FileOf(m)[a..a + 4], v);
    SameFour(FileOf(m), a, ByteOf(v, 0), ByteOf(v, 1), ByteOf(v, 2), ByteOf(v, 3));
  }

  lemma SameFour(f: seq<Byte>, a: nat, b0: Byte, b1: Byte, b2: Byte, b3: Byte)
    requires a + 4 <= |f| && f[a..a + 4] == [b0, b1, b2, b3]
    ensures ReadI32(f, a) == ReadI32([b0, b1, b2, b3], 0)
  {
    assert f[a] == f[a..a + 4][0] && f[a + 1] == f[a..a + 4][1];
    assert f[a + 2] == f[a..a + 4][2] && f[a + 3] == f[a..a + 4][3];
  }
}
