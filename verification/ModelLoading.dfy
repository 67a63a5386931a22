/** From the initrd to a decision: `try_set_model_from_initrd` finds the model, and the
    agent evaluates it.  A generated model packed in an archive is evaluated as generated. */
module ModelLoading {
  import opened Bytes
  import opened Aimd
  import opened Inference
  import opened RingArithmetic
  import Cpio

  const AI_MOD: seq<Byte> := [0x61, 0x69, 0x2E, 0x6D, 0x6F, 0x64]  // ai.mod

  lemma LoaderWords()
    ensures Spells(AI_MOD, "ai.mod") && Spells(Aimd.MAGIC, "AIMD")
  {
  }

  /** What the kernel would take as the model: its offset in the image, if there is an
      entry for it whose first 16 bytes pass the header test.  `beyond` is the memory that
      follows the image, which a header read near its end runs into. */
  function Located(image: seq<Byte>, beyond: seq<Byte>): (r: Option<nat>)
    requires |beyond| >= PAYLOAD_OFFSET
    ensures r.Some? ==> r.value <= |image|
  {
    if |image| < PAYLOAD_OFFSET then None
    else
      var found := Cpio.FirstNamed(Cpio.Visits(image, 0), AI_MOD);
      if found.None? then None
      else
        FoundInside(image, AI_MOD);
        if Valid(ReadHeader((image + beyond)[found.value..])) then found else None
  }

  lemma FoundInside(image: seq<Byte>, want: seq<Byte>)
    requires Cpio.FirstNamed(Cpio.Visits(image, 0), want).Some?
    ensures Cpio.FirstNamed(Cpio.Visits(image, 0), want).value <= |image|
  {
    Cpio.FirstNamedMeaning(Cpio.Visits(image, 0), want);
  }

  /** INITRD_BASE with the INITRD_LEN bytes behind it, AI_MODEL_ADDR and AI_MODEL_LEN. */
  class Globals {
    const base: Option<nat>
    const image: seq<Byte>
    const beyond: seq<Byte>
    var modelAddr: Option<nat>
    var modelLen: nat

    constructor (base: Option<nat>, image: seq<Byte>, beyond: seq<Byte>)
      ensures this.base == base && this.image == image && this.beyond == beyond
      ensures modelAddr == None && modelLen == 0
    {
      this.base, this.image, this.beyond := base, image, beyond;
      modelAddr, modelLen := None, 0;
    }

    /** The length is set to all of the image behind the model's first byte. */
    method TrySetModelFromInitrd()
      requires |beyond| >= PAYLOAD_OFFSET
      modifies this
      ensures old(modelAddr).Some? || base.None? || Located(image, beyond).None? ==>
        modelAddr == old(modelAddr) && modelLen == old(modelLen)
      ensures old(modelAddr).None? && base.Some? && Located(image, beyond).Some? ==>
        var off := Located(image, beyond).value;
        modelAddr == Some(base.value + off) && modelLen == |image| - off
    {
      hide Cpio.Visits, ReadHeader;
      if modelAddr.None? && base.Some? && |image| >= PAYLOAD_OFFSET {
        var p := Cpio.CpioFind(image, AI_MOD);
        if p.Some? {
          FoundInside(image, AI_MOD);
          var h := ReadHeader((image + beyond)[p.value..]);
          if Valid(h) {
            modelAddr := Some(base.value + p.value);
            modelLen := |image| - p.value;
          }
        }
      }
    }
  }

  // ---- where the header read lies ----

  /** The 16 bytes the loader reads when memory x follows the image. */
  function BytesRead(image: seq<Byte>, x: seq<Byte>, off: nat): seq<Byte>
    requires off <= |image| && |x| >= PAYLOAD_OFFSET
  {
    (image + x)[off..off + PAYLOAD_OFFSET]
  }

  /** The loader reads 16 bytes wherever the file starts: they come from the image, whatever
      follows it in memory, if and only if 16 are left there.  The code does not test that. */
  lemma HeaderInsideIff(image: seq<Byte>, off: nat)
    requires off <= |image|
    ensures (forall x: seq<Byte>, y: seq<Byte> :: |x| >= PAYLOAD_OFFSET && |y| >= PAYLOAD_OFFSET ==>
               BytesRead(image, x, off) == BytesRead(image, y, off)) <==> off + PAYLOAD_OFFSET <= |image|
  {
    if off + PAYLOAD_OFFSET > |image| {
      var x, y: seq<Byte> := seq(PAYLOAD_OFFSET, _ => 0), seq(PAYLOAD_OFFSET, _ => 1);
      assert BytesRead(image, x, off)[15] == 0 && BytesRead(image, y, off)[15] == 1;
    }
  }

  /** What it makes of them is decided by the image alone if and only if the 13 bytes that
      are looked at come from it. */
  lemma HeaderDecidedByImageIff(image: seq<Byte>, off: nat)
    requires off <= |image|
    ensures (forall x: seq<Byte>, y: seq<Byte> :: |x| >= PAYLOAD_OFFSET && |y| >= PAYLOAD_OFFSET ==>
               HeaderFrom(image, x, off) == HeaderFrom(image, y, off)) <==> off + 13 <= |image|
  {
    if off + 13 <= |image| {
      forall x: seq<Byte>, y: seq<Byte> | |x| >= PAYLOAD_OFFSET && |y| >= PAYLOAD_OFFSET
        ensures HeaderFrom(image, x, off) == HeaderFrom(image, y, off)
      {
        SameFirst13(image, x, y, off);
      }
    } else {
      var x, y: seq<Byte> := seq(PAYLOAD_OFFSET, _ => 0), seq(PAYLOAD_OFFSET, _ => 1);
      assert (image + x)[off..][12] == 0 && (image + y)[off..][12] == 1;
      assert HeaderFrom(image, x, off).dtype != HeaderFrom(image, y, off).dtype;
    }
  }

  /** The header the loader sees when memory x follows the image. */
  function HeaderFrom(image: seq<Byte>, x: seq<Byte>, off: nat): Header
    requires off <= |image| && |x| >= PAYLOAD_OFFSET
  {
    ReadHeader((image + x)[off..])
  }

  lemma SameFirst13(image: seq<Byte>, x: seq<Byte>, y: seq<Byte>, off: nat)
    requires off + 13 <= |image| && |x| >= PAYLOAD_OFFSET && |y| >= PAYLOAD_OFFSET
    ensures HeaderFrom(image, x, off) == HeaderFrom(image, y, off)
  {
    hide Unsigned16, Unsigned32;
    var a, b := (image + x)[off..], (image + y)[off..];
    assert a[..4] == b[..4];
    assert forall k :: 0 <= k < 13 ==> a[k] == image[off + k] == b[k];
  }

  /** A failing input: the image is one empty entry named ai.mod and nothing else.  Whatever
      valid header happens to lie in memory behind it is taken for the model's, although
      none of its bytes is in the image. */
  lemma HeaderCanLieOutside(f: Cpio.File, beyond: seq<Byte>)
    requires Cpio.Encodable(f) && f.name == AI_MOD && f.data == []
    requires |beyond| >= PAYLOAD_OFFSET && Valid(ReadHeader(beyond))
    ensures Located(Cpio.Encode(f), beyond) == Some(|Cpio.Encode(f)|)
  {
    hide Cpio.Encode, Cpio.Encodable, ReadHeader;
    var b := Cpio.Encode(f);
    assert b[0..] == b + [] && Cpio.TRAILER != AI_MOD;
    Cpio.FoundFirst(b, 0, f, []);
    Cpio.AtLeastHeader(f);
    assert Cpio.Visits(b, |b|) == [];
    assert Cpio.Visits(b, 0) == [Cpio.EntryOf(f, 0)];
    assert Cpio.EntryOf(f, 0).off == |b|;
    assert (b + beyond)[|b|..] == beyond;
  }

  /** In any archive closed by a trailer the header read stays inside. */
  lemma ClosedArchiveKeepsHeaderInside(files: seq<Cpio.File>, trailer: Cpio.File, rest: seq<Byte>, want: seq<Byte>)
    requires Cpio.AllEncodable(files) && Cpio.Encodable(trailer) && trailer.name == Cpio.TRAILER
    ensures var image := Cpio.EncodeAll(files) + Cpio.Encode(trailer) + rest;
      var r := Cpio.FirstNamed(Cpio.Visits(image, 0), want);
      r.Some? ==> r.value + PAYLOAD_OFFSET <= |image|
  {
    hide Cpio.Visits, Cpio.EncodeAll, Cpio.Encode, Cpio.TRAILER, Cpio.Encodable;
    var image := Cpio.EncodeAll(files) + Cpio.Encode(trailer) + rest;
    assert image[0..] == image;
    Cpio.RoomBehind(image, 0, files, trailer, rest);
    Cpio.FirstNamedMeaning(Cpio.Visits(image, 0), want);
  }

  /** In any image at all it stays inside if the entry found is at least a header long. */
  lemma LongEntryKeepsHeaderInside(image: seq<Byte>, want: seq<Byte>, i: nat)
    requires var es := Cpio.Visits(image, 0);
      && i < |es| && Cpio.NameIs(es[i].name, want) && es[i].size >= PAYLOAD_OFFSET
      && forall j :: 0 <= j < i ==> !Cpio.NameIs(es[j].name, want)
    ensures var r := Cpio.FirstNamed(Cpio.Visits(image, 0), want);
      r == Some(Cpio.Visits(image, 0)[i].off) && r.value + PAYLOAD_OFFSET <= |image|
  {
    hide Cpio.Visits;
    var es := Cpio.Visits(image, 0);
    Cpio.FirstNamedMeaning(es, want);
    var k :| 0 <= k < |es| && Cpio.NameIs(es[k].name, want) && Cpio.FirstNamed(es, want) == Some(es[k].off)
             && (forall j :: 0 <= j < k ==> !Cpio.NameIs(es[j].name, want));
    assert k == i;
  }

  /** If the weights are present, the header that was read lies inside the image, and so
      does every weight row and every bias the agent reads. */
  lemma ReadsStayInside(image: seq<Byte>, beyond: seq<Byte>, l: nat, o: nat)
    requires |beyond| >= PAYLOAD_OFFSET && Located(image, beyond).Some?
    ensures var off := Located(image, beyond).value;
      var h := ReadHeader((image + beyond)[off..]);
      HasWeights(h, |image| - off) ==>
        && off + PAYLOAD_OFFSET <= |image|
        && h == ReadHeader(image[off..])
        && (l < h.nLayers && o < OutDim(h, l) ==>
              && off + WeightAddr(h, l) + o * h.hidden + h.hidden <= |image|
              && off + BiasAddr(h, l) + 4 * o + 4 <= |image|)
  {
    hide Located, Offset, ReadHeader, OutDim;
    var off := Located(image, beyond).value;
    var h := ReadHeader((image + beyond)[off..]);
    if HasWeights(h, |image| - off) {
      assert image[off..] == (image + beyond)[off..][..|image| - off];
      HeaderOfPrefix(image[off..], (image + beyond)[off..]);
      if l < h.nLayers && o < OutDim(h, l) { InsideModel(h, |image| - off, l, o); }
    }
  }

  // ---- the network itself, without any file ----

  function NetDot(ws: seq<int>, a: nat, x: seq<int>, n: nat): int
    requires n <= |x| && a + n <= |ws|
  {
    if n == 0 then 0 else NetDot(ws, a, x, n - 1) + ws[a + n - 1] * x[n - 1]
  }

  function NetNeuron(m: Net, l: nat, x: seq<int>, o: nat): int
    requires Accepted(m) && Drawn(m) && l < m.layers && m.hidden <= |x| && o < OutDim(HeaderOf(m), l)
  {
    RowFits(m, l, o);
    SaturateI32(NetDot(m.weights[l], o * m.hidden, x, m.hidden) + m.biases[l][o])
  }

  lemma RowFits(m: Net, l: nat, o: nat)
    requires Accepted(m) && Drawn(m) && l < m.layers && o < OutDim(HeaderOf(m), l)
    ensures l < |m.weights| && l < |m.biases| && o * m.hidden + m.hidden <= |m.weights[l]| && o < |m.biases[l]|
  {
    hide Drawn;
    DrawnLayer(m, l);
    RowInMatrix(o, OutDim(HeaderOf(m), l), m.hidden);
  }

  function NetForward(m: Net, t: Telemetry, shift: nat, l: nat): (x: seq<int>)
    requires Accepted(m) && Drawn(m) && l <= LayersRun(HeaderOf(m))
    ensures |x| == Width(HeaderOf(m), l)
  {
    if l == 0 then Features(HeaderOf(m), t)
    else
      var x := NetForward(m, t, shift, l - 1);
      seq(OutDim(HeaderOf(m), l - 1), o requires 0 <= o < OutDim(HeaderOf(m), l - 1) =>
        Requantise(NetNeuron(m, l - 1, x, o), shift))
  }

  /** `model` begins with the file generated for m. */
  predicate Begins(model: seq<Byte>, m: Net)
    requires Accepted(m) && Drawn(m)
  {
    FileOf(m) <= model
  }

  lemma FirstLayerNotEmpty(h: Header)
    requires h.hidden >= 1 && h.nLayers >= 1
    ensures Offset(h, h.nLayers) > 0
  {
    var n := OutDim(h, 0);
    assert n >= 1 && LayerBytes(h, 0) == h.hidden * n + n * 4;
    hide OutDim;
    MulMonotone(0, h.hidden, n);
    OffsetMonotone(h, 1, h.nLayers);
  }

  lemma HasItsWeights(m: Net, model: seq<Byte>)
    requires Accepted(m) && Drawn(m) && Begins(model, m)
    ensures HasWeights(HeaderOf(m), |model|)
  {
    FirstLayerNotEmpty(HeaderOf(m));
    FileShape(m);
    hide Drawn, FileOf, Offset;
  }

  lemma {:induction false} DotIsNetDot(m: Net, model: seq<Byte>, l: nat, j: nat, x: seq<int>, n: nat)
    requires Accepted(m) && Drawn(m) && Begins(model, m) && l < m.layers && n <= |x|
    requires j + n <= |m.weights[l]| && WeightAddr(HeaderOf(m), l) + j + n <= |model|
    ensures Dot(model, WeightAddr(HeaderOf(m), l) + j, x, n) == NetDot(m.weights[l], j, x, n)
  {
    hide Drawn, Offset, FileOf;
    if n > 0 {
      DrawnLayer(m, l);
      DotIsNetDot(m, model, l, j, x, n - 1);
      WeightRoundTrip(m, l, j + n - 1);
      var a := WeightAddr(HeaderOf(m), l) + j + n - 1;
      assert model[a] == FileOf(m)[a];
    }
  }

  lemma NeuronIsNetNeuron(m: Net, model: seq<Byte>, l: nat, x: seq<int>, o: nat)
    requires Accepted(m) && Drawn(m) && Begins(model, m) && HasWeights(HeaderOf(m), |model|)
    requires l < m.layers && m.hidden <= |x| && o < OutDim(HeaderOf(m), l)
    ensures Neuron(model, HeaderOf(m), l, x, o) == NetNeuron(m, l, x, o)
  {
    hide Drawn, Offset, FileOf, HasWeights, ReadI8, ReadI32, OutDim, Dot, NetDot;
    var h := HeaderOf(m);
    RowFits(m, l, o);
    InsideModel(h, |model|, l, o);
    DotIsNetDot(m, model, l, o * m.hidden, x, m.hidden);
    BiasRoundTrip(m, l, o);
    SameI32(FileOf(m), model, BiasAddr(h, l) + 4 * o);
  }

  lemma SameI32(a: seq<Byte>, b: seq<Byte>, off: nat)
    requires a <= b && off + 4 <= |a|
    ensures ReadI32(a, off) == ReadI32(b, off)
  {
    assert a[off] == b[off] && a[off + 1] == b[off + 1] && a[off + 2] == b[off + 2] && a[off + 3] == b[off + 3];
  }

  /** The fixed-width pass over the file's bytes is the pass over the drawn numbers. */
  lemma {:induction false} ForwardIsNetForward(m: Net, model: seq<Byte>, t: Telemetry, shift: nat, l: nat)
    requires Accepted(m) && Drawn(m) && Begins(model, m) && HasWeights(HeaderOf(m), |model|)
    requires l <= LayersRun(HeaderOf(m))
    ensures Forward(model, HeaderOf(m), t, shift, l) == NetForward(m, t, shift, l)
  {
    hide Drawn, Offset, FileOf, HasWeights, Neuron, NetNeuron, Requantise, Features;
    if l > 0 {
      var h, k := HeaderOf(m), l - 1;
      ForwardIsNetForward(m, model, t, shift, k);
      var x := NetForward(m, t, shift, k);
      forall o | 0 <= o < OutDim(h, k) ensures Neuron(model, h, k, x, o) == NetNeuron(m, k, x, o) {
        NeuronIsNetNeuron(m, model, k, x, o);
      }
    }
  }

  // ---- end to end ----

  /** For every network the generator can write, packed under "ai.mod" or "./ai.mod"
      anywhere in any archive: the loader locates it, its header is the network's, all of
      its weights are found present, and evaluating the located bytes gives what the
      network itself gives. */
  lemma PackedModelIsEvaluatedAsGenerated(m: Net, files: seq<Cpio.File>, trailer: Cpio.File, rest: seq<Byte>,
                                          beyond: seq<Byte>, i: nat, t: Telemetry, shift: nat)
    requires Accepted(m) && Drawn(m) && |beyond| >= PAYLOAD_OFFSET
    requires Cpio.AllEncodable(files) && Cpio.Encodable(trailer) && trailer.name == Cpio.TRAILER
    requires i < |files| && files[i].data == FileOf(m)
    requires files[i].name == AI_MOD || files[i].name == [0x2E, 0x2F] + AI_MOD
    requires forall j :: 0 <= j < i ==> files[j].name != AI_MOD && files[j].name != [0x2E, 0x2F] + AI_MOD
    ensures var image := Cpio.EncodeAll(files) + Cpio.Encode(trailer) + rest;
      var r, h := Located(image, beyond), HeaderOf(m);
      && r.Some?
      && ReadHeader((image + beyond)[r.value..]) == h
      && HasWeights(h, |image[r.value..]|)
      && Forward(image[r.value..], h, t, shift, LayersRun(h)) == NetForward(m, t, shift, LayersRun(h))
  {
    hide Cpio.Visits, Cpio.EncodeAll, Cpio.Encode, Cpio.AllEncodable, Cpio.TRAILER, Drawn, FileOf, Offset;
    hide Forward, NetForward, LayersRun, ReadHeader, HasWeights;
    var image := Cpio.EncodeAll(files) + Cpio.Encode(trailer) + rest;
    Cpio.ArchivedFileFound(files, trailer, rest, AI_MOD, i);
    var off := Cpio.FirstNamed(Cpio.Visits(image, 0), AI_MOD).value;
    var model := image[off..];
    assert model[..|FileOf(m)|] == image[off..off + |FileOf(m)|] == FileOf(m);
    FileShape(m);
    HeaderOfPrefix(FileOf(m), (image + beyond)[off..]);
    HasItsWeights(m, model);
    ForwardIsNetForward(m, model, t, shift, LayersRun(HeaderOf(m)));
  }

  lemma HeaderOfPrefix(a: seq<Byte>, b: seq<Byte>)
    requires PAYLOAD_OFFSET <= |a| <= |b| && a == b[..|a|]
    ensures ReadHeader(a) == ReadHeader(b)
  {
    hide Unsigned16, Unsigned32;
    assert a[..4] == b[..4];
    forall k | 0 <= k < PAYLOAD_OFFSET ensures a[k] == b[k] { assert a[k] == b[..|a|][k]; }
  }
}
