/** `parse_hid_keyboard_endpoint`: the walk over a USB configuration descriptor in search
    of the interrupt-IN endpoint of a boot keyboard (sections 9.6.5 and 9.6.6 of the USB 2.0
    specification, sections 4.2 and 4.3 of HID 1.11). */
module UsbDescriptors {
  import opened Bytes

  const INTERFACE: Byte := 4
  const ENDPOINT: Byte := 5

  /** Address, maximum packet size and polling interval. */
  datatype Endpoint = Endpoint(addr: nat, maxPacket: nat, interval: nat)

  // ---- descriptors as the specifications describe them ----

  /** A descriptor starts with its own length and its type. */
  predicate WellFormed(d: seq<Byte>) {
    |d| >= 2 && d[0] == |d|
  }

  predicate IsInterface(d: seq<Byte>) {
    |d| >= 9 && d[1] == INTERFACE
  }

  /** Class HID, subclass boot, protocol keyboard. */
  predicate IsBootKeyboard(d: seq<Byte>) {
    IsInterface(d) && d[5] == 3 && d[6] == 1 && d[7] == 1
  }

  /** Direction bit set in the address, transfer type 3 in the attributes. */
  predicate IsInterruptIn(d: seq<Byte>) {
    |d| >= 7 && d[1] == ENDPOINT && d[2] >= 0x80 && d[3] % 4 == 3
  }

  function EndpointOf(d: seq<Byte>): Endpoint
    requires IsInterruptIn(d)
  {
    Endpoint(d[2], d[4] as nat + 0x100 * d[5] as nat, d[6])
  }

  predicate AllWellFormed(ds: seq<seq<Byte>>) {
    forall i :: 0 <= i < |ds| ==> WellFormed(ds[i])
  }

  /** The nearest interface before descriptor j is a boot keyboard's. */
  ghost predicate Governed(ds: seq<seq<Byte>>, j: nat)
    requires j <= |ds|
  {
    exists i :: 0 <= i < j && IsBootKeyboard(ds[i]) && forall k :: i < k < j ==> !IsInterface(ds[k])
  }

  ghost predicate Wanted(ds: seq<seq<Byte>>, j: nat)
    requires j < |ds|
  {
    IsInterruptIn(ds[j]) && Governed(ds, j)
  }

  function Join(ds: seq<seq<Byte>>): seq<Byte> {
    if ds == [] then [] else ds[0] + Join(ds[1..])
  }

  // ---- the walk, on any bytes ----

  function Flag(d: seq<Byte>, inHid: bool): bool {
    if IsInterface(d) then IsBootKeyboard(d) else inHid
  }

  /** What the loop computes from offset i on. */
  function Walk(b: seq<Byte>, i: nat, inHid: bool): Option<Endpoint>
    requires i <= |b|
    decreases |b| - i
  {
    if i + 2 > |b| || b[i] == 0 || i + b[i] > |b| then None
    else
      var d := b[i..i + b[i]];
      if inHid && IsInterruptIn(d) then Some(EndpointOf(d))
      else Walk(b, i + b[i], Flag(d, inHid))
  }

  /** On every byte buffer the loop terminates and reads in range. */
  method ParseHidKeyboardEndpoint(bytes: seq<Byte>) returns (r: Option<Endpoint>)
    ensures r == Walk(bytes, 0, false)
  {
    var i := 0;
    var inHidIface := false;
    while i + 2 <= |bytes|
      invariant 0 <= i <= |bytes|
      invariant Walk(bytes, i, inHidIface) == Walk(bytes, 0, false)
    {
      var len := bytes[i];
      if len == 0 { break; }
      if i + len > |bytes| { break; }
      ghost var d := bytes[i..i + len];
      var dtype := bytes[i + 1];
      if dtype == 4 {
        if len >= 9 {
          var class_, subclass, proto := bytes[i + 5], bytes[i + 6], bytes[i + 7];
          assert class_ == d[5] && subclass == d[6] && proto == d[7];
          inHidIface := class_ == 3 && subclass == 1 && proto == 1;
        }
      } else if dtype == 5 {
        if inHidIface && len >= 7 {
          var addr := bytes[i + 2];
          var attrs := bytes[i + 3] % 4;
          var maxp := bytes[i + 4] as nat + 0x100 * bytes[i + 5] as nat;
          var interval := bytes[i + 6];
          assert addr == d[2] && attrs == d[3] % 4 && bytes[i + 4] == d[4] && bytes[i + 5] == d[5] && interval == d[6];
          if addr >= 0x80 && attrs == 3 {
            return Some(Endpoint(addr, maxp, interval));
          }
        }
      }
      i := i + len;
    }
    return None;
  }

  // ---- on a list of descriptors ----

  function Search(ds: seq<seq<Byte>>, i: nat, inHid: bool): Option<Endpoint>
    requires i <= |ds|
    decreases |ds| - i
  {
    if i == |ds| then None
    else if inHid && IsInterruptIn(ds[i]) then Some(EndpointOf(ds[i]))
    else Search(ds, i + 1, Flag(ds[i], inHid))
  }

  /** Walking the bytes of well-formed descriptors is walking the descriptors. */
  lemma {:induction false} WalkIsSearch(b: seq<Byte>, at: nat, ds: seq<seq<Byte>>, i: nat, inHid: bool)
    requires AllWellFormed(ds) && i <= |ds| && at <= |b| && b[at..] == Join(ds[i..])
    ensures Walk(b, at, inHid) == Search(ds, i, inHid)
    decreases |ds| - i
  {
    if i < |ds| {
      var d := ds[i];
      assert ds[i..][1..] == ds[i + 1..];
      assert b[at..] == d + Join(ds[i + 1..]);
      assert b[at] == b[at..][0] == d[0];
      assert b[at..at + |d|] == b[at..][..|d|] == d;
      assert b[at + |d|..] == b[at..][|d|..] == Join(ds[i + 1..]);
      WalkIsSearch(b, at + |d|, ds, i + 1, Flag(d, inHid));
    }
  }

  /** The loop's flag is the declarative notion of a governing interface. */
  lemma GovernedSteps(ds: seq<seq<Byte>>, i: nat)
    requires i < |ds|
    ensures Governed(ds, i + 1) <==> Flag(ds[i], Governed(ds, i))
  {
    if IsInterface(ds[i]) {
      if Governed(ds, i + 1) {
        var k :| 0 <= k < i + 1 && IsBootKeyboard(ds[k]) && forall m :: k < m < i + 1 ==> !IsInterface(ds[m]);
        assert k == i;
      }
    } else if Governed(ds, i + 1) {
      var k :| 0 <= k < i + 1 && IsBootKeyboard(ds[k]) && forall m :: k < m < i + 1 ==> !IsInterface(ds[m]);
      assert k < i && forall m :: k < m < i ==> !IsInterface(ds[m]);
    }
  }

  /** The search from descriptor i on returns the first wanted endpoint there. */
  lemma {:induction false} SearchFindsFirst(ds: seq<seq<Byte>>, i: nat, inHid: bool)
    requires i <= |ds| && (inHid <==> Governed(ds, i))
    ensures var r := Search(ds, i, inHid);
      && (r.None? <==> forall j :: i <= j < |ds| ==> !Wanted(ds, j))
      && (r.Some? ==> exists j ::
            && i <= j < |ds| && Wanted(ds, j) && r == Some(EndpointOf(ds[j]))
            && (forall k :: i <= k < j ==> !Wanted(ds, k)))
    decreases |ds| - i
  {
    hide Governed, IsInterruptIn, Flag;
    if i < |ds| {
      GovernedSteps(ds, i);
      if inHid && IsInterruptIn(ds[i]) {
        assert Wanted(ds, i);
      } else {
        assert !Wanted(ds, i);
        SearchFindsFirst(ds, i + 1, Flag(ds[i], inHid));
        hide Wanted;
        var r := Search(ds, i + 1, Flag(ds[i], inHid));
        assert Search(ds, i, inHid) == r;
        hide Search;
      }
    }
  }

  /** For every concatenation of well-formed descriptors the parser returns exactly the
      first interrupt-IN endpoint whose nearest preceding interface is a HID boot keyboard,
      and nothing when there is none. */
  lemma ParserFindsKeyboardEndpoint(ds: seq<seq<Byte>>)
    requires AllWellFormed(ds)
    ensures var r := Walk(Join(ds), 0, false);
      && (r.None? <==> forall j :: 0 <= j < |ds| ==> !Wanted(ds, j))
      && (r.Some? ==> exists j ::
            && 0 <= j < |ds| && Wanted(ds, j) && r == Some(EndpointOf(ds[j]))
            && (forall k :: 0 <= k < j ==> !Wanted(ds, k)))
  {
    assert Join(ds)[0..] == Join(ds) && ds[0..] == ds;
    WalkIsSearch(Join(ds), 0, ds, 0, false);
    SearchFindsFirst(ds, 0, false);
  }

  // ---- descriptors as a device composes them ----

  /** An interface (section 9.6.5), an endpoint (section 9.6.6), or any other descriptor. */
  datatype Descriptor =
    | Interface(number: Byte, alternate: Byte, endpoints: Byte,
                class_: Byte, subclass: Byte, protocol: Byte, name: Byte)
    | EndpointDescriptor(address: Byte, attributes: Byte, maxPacket: nat, interval: Byte)
    | Other(kind: Byte, body: seq<Byte>)

  predicate Composable(d: Descriptor) {
    match d
    case Interface(_, _, _, _, _, _, _) => true
    case EndpointDescriptor(_, _, maxPacket, _) => maxPacket < 0x1_0000
    case Other(kind, body) => kind != 4 && kind != 5 && |body| < 254
  }

  /** The bytes of a descriptor; a packet size is stored with its low byte first. */
  function Layout(d: Descriptor): (b: seq<Byte>)
    requires Composable(d)
    ensures WellFormed(b)
  {
    match d
    case Interface(number, alternate, endpoints, class_, subclass, protocol, name) =>
      [9, 4, number, alternate, endpoints, class_, subclass, protocol, name]
    case EndpointDescriptor(address, attributes, maxPacket, interval) =>
      [7, 5, address, attributes, maxPacket % 0x100, maxPacket / 0x100, interval]
    case Other(kind, body) => [|body| + 2, kind] + body
  }

  predicate AllComposable(ds: seq<Descriptor>) {
    forall i :: 0 <= i < |ds| ==> Composable(ds[i])
  }

  function Layouts(ds: seq<Descriptor>): (bs: seq<seq<Byte>>)
    requires AllComposable(ds)
    ensures |bs| == |ds| && AllWellFormed(bs)
  {
    seq(|ds|, i requires 0 <= i < |ds| => Layout(ds[i]))
  }

  /** A keyboard that speaks the boot protocol. */
  predicate Keyboard(d: Descriptor) {
    d.Interface? && d.class_ == 3 && d.subclass == 1 && d.protocol == 1
  }

  predicate PollsKeys(d: Descriptor) {
    d.EndpointDescriptor? && d.address >= 0x80 && d.attributes % 4 == 3
  }

  /** Descriptor j is such an endpoint of a keyboard: the last interface before it is one. */
  ghost predicate KeyboardEndpoint(ds: seq<Descriptor>, j: nat)
    requires j < |ds|
  {
    && PollsKeys(ds[j])
    && exists i :: 0 <= i < j && Keyboard(ds[i]) && forall k :: i < k < j ==> !ds[k].Interface?
  }

  /** The bytes tell the parser exactly what the descriptor says. */
  lemma LayoutFields(d: Descriptor)
    requires Composable(d)
    ensures IsInterface(Layout(d)) <==> d.Interface?
    ensures IsBootKeyboard(Layout(d)) <==> Keyboard(d)
    ensures IsInterruptIn(Layout(d)) <==> PollsKeys(d)
    ensures PollsKeys(d) ==> EndpointOf(Layout(d)) == Endpoint(d.address, d.maxPacket, d.interval)
  {
  }

  lemma WantedIffKeyboardEndpoint(ds: seq<Descriptor>, j: nat)
    requires AllComposable(ds) && j < |ds|
    ensures Wanted(Layouts(ds), j) <==> KeyboardEndpoint(ds, j)
  {
    hide Layout, IsInterface, IsBootKeyboard, IsInterruptIn, Keyboard, PollsKeys;
    var bs := Layouts(ds);
    forall i | 0 <= i < |ds|
      ensures IsInterface(bs[i]) <==> ds[i].Interface?
      ensures IsBootKeyboard(bs[i]) <==> Keyboard(ds[i])
      ensures IsInterruptIn(bs[i]) <==> PollsKeys(ds[i])
    {
      LayoutFields(ds[i]);
    }
    if Wanted(bs, j) {
      var i :| 0 <= i < j && IsBootKeyboard(bs[i]) && forall k :: i < k < j ==> !IsInterface(bs[k]);
      assert Keyboard(ds[i]) && forall k :: i < k < j ==> !ds[k].Interface?;
    }
    if KeyboardEndpoint(ds, j) {
      var i :| 0 <= i < j && Keyboard(ds[i]) && forall k :: i < k < j ==> !ds[k].Interface?;
      assert IsBootKeyboard(bs[i]) && forall k :: i < k < j ==> !IsInterface(bs[k]);
    }
  }

  /** Round trip: from the bytes of any list of descriptors the parser returns the address,
      the packet size and the interval that the first polled endpoint of a keyboard was
      composed with, and nothing if and only if the list has none. */
  lemma ComposedEndpointIsParsed(ds: seq<Descriptor>)
    requires AllComposable(ds)
    ensures var r := Walk(Join(Layouts(ds)), 0, false);
      && (r.None? <==> forall j :: 0 <= j < |ds| ==> !KeyboardEndpoint(ds, j))
      && (r.Some? ==> exists j ::
            && 0 <= j < |ds| && KeyboardEndpoint(ds, j)
            && r == Some(Endpoint(ds[j].address, ds[j].maxPacket, ds[j].interval))
            && (forall k :: 0 <= k < j ==> !KeyboardEndpoint(ds, k)))
  {
    hide Governed, Walk, KeyboardEndpoint, Layout, PollsKeys, EndpointOf;
    var bs := Layouts(ds);
    var r := Walk(Join(bs), 0, false);
    forall j | 0 <= j < |ds| ensures Wanted(bs, j) <==> KeyboardEndpoint(ds, j) {
      WantedIffKeyboardEndpoint(ds, j);
    }
    ParserFindsKeyboardEndpoint(bs);
    if r.Some? {
      var j :| 0 <= j < |bs| && Wanted(bs, j) && r == Some(EndpointOf(bs[j]))
               && (forall k :: 0 <= k < j ==> !Wanted(bs, k));
      WantedPolls(ds, j);
      LayoutFields(ds[j]);
    }
  }

  lemma WantedPolls(ds: seq<Descriptor>, j: nat)
    requires j < |ds| && KeyboardEndpoint(ds, j)
    ensures PollsKeys(ds[j]) && ds[j].EndpointDescriptor?
  {
  }
}
