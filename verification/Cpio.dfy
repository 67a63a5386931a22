/** The two readers of the initrd: `ramfs::for_each` and `ai_initrd::cpio_find`.  Both
    walk the New ASCII ("newc") format of cpio(5) over a byte image. */
module Cpio {
  import opened Bytes

  const HEADER := 110
  const MAGIC: seq<Byte> := [0x30, 0x37, 0x30, 0x37, 0x30, 0x31]                            // 070701
  const TRAILER: seq<Byte> := [0x54, 0x52, 0x41, 0x49, 0x4C, 0x45, 0x52, 0x21, 0x21, 0x21]  // TRAILER!!!

  lemma FormatWords()
    ensures Spells(MAGIC, "070701") && Spells(TRAILER, "TRAILER!!!")
  {
  }

  /** `(k + 3) & !3` */
  function Align4(k: nat): (r: nat)
    ensures r % 4 == 0 && k <= r < k + 4
  {
    (k + 3) / 4 * 4
  }

  // ---- hexadecimal fields ----

  predicate IsHex(c: Byte) {
    0x30 <= c <= 0x39 || 0x61 <= c <= 0x66 || 0x41 <= c <= 0x46
  }

  function HexDigit(c: Byte): (d: nat)
    requires IsHex(c)
    ensures d < 16
  {
    if c <= 0x39 then c - 0x30 else if c <= 0x46 then 10 + (c - 0x41) else 10 + (c - 0x61)
  }

  predicate AllHex(s: seq<Byte>) {
    forall i :: 0 <= i < |s| ==> IsHex(s[i])
  }

  function HexNumber(s: seq<Byte>): nat
    requires AllHex(s)
  {
    if s == [] then 0 else HexNumber(s[..|s| - 1]) * 16 + HexDigit(s[|s| - 1])
  }

  function HexField(s: seq<Byte>): Option<nat> {
    if AllHex(s) then Some(HexNumber(s)) else None
  }

  function Pow16(k: nat): nat {
    if k == 0 then 1 else 16 * Pow16(k - 1)
  }

  lemma Pow16Of8()
    ensures Pow16(8) == U32_RANGE && forall k: nat :: k < 8 ==> Pow16(k) * 16 <= U32_RANGE
  {
    assert Pow16(1) == 16 && Pow16(2) == 0x100 && Pow16(3) == 0x1000 && Pow16(4) == 0x1_0000;
    assert Pow16(5) == 0x10_0000 && Pow16(6) == 0x100_0000 && Pow16(7) == 0x1000_0000;
  }

  /** The inner closure of both readers, in 32-bit arithmetic: the shift never loses a bit. */
  method ReadHex(b: seq<Byte>, off: nat) returns (r: Option<nat>)
    requires off + 8 <= |b|
    ensures r == HexField(b[off..off + 8])
    ensures r.Some? ==> r.value < U32_RANGE
  {
    Pow16Of8();
    hide IsHex, HexDigit;
    var v := 0;
    for i := 0 to 8
      invariant AllHex(b[off..off + i]) && v == HexNumber(b[off..off + i]) && v < Pow16(i)
    {
      var c := b[off + i];
      if !IsHex(c) {
        assert b[off..off + 8][i] == c;
        return None;
      }
      assert b[off..off + i + 1] == b[off..off + i] + [c];
      v := v * 16 % U32_RANGE + HexDigit(c);
    }
    return Some(v);
  }

  // ---- what the walk over an image means ----

  datatype Entry = Entry(name: seq<Byte>, off: nat, size: nat)

  /** The entry whose header starts at `off`, if its header and name can be read. */
  function EntryAt(b: seq<Byte>, off: nat): (r: Option<Entry>)
    requires off + HEADER <= |b|
    ensures r.Some? ==> off + HEADER <= r.value.off && r.value.off % 4 == 0
  {
    if b[off..off + 6] != MAGIC then None
    else
      var n := HexField(b[off + 94..off + 102]);
      var f := HexField(b[off + 54..off + 62]);
      if n.None? || f.None? then None
      else
        var nameOff := off + HEADER;
        if nameOff + n.value > |b| then None
        else
          var name := b[nameOff..nameOff + if n.value > 0 then n.value - 1 else 0];
          Some(Entry(name, Align4(nameOff + n.value), f.value))
  }

  /** The name field without its final NUL, as both readers cut it. */
  function CutName(nameBytes: seq<Byte>): seq<Byte> {
    if |nameBytes| > 0 then nameBytes[..|nameBytes| - 1] else nameBytes
  }

  lemma BadMagic(b: seq<Byte>, off: nat)
    requires off + HEADER <= |b| && b[off..off + 6] != MAGIC
    ensures EntryAt(b, off) == None
  {
  }

  lemma EntryFrom(b: seq<Byte>, off: nat, n: Option<nat>, f: Option<nat>)
    requires off + HEADER <= |b| && b[off..off + 6] == MAGIC
    requires n == HexField(b[off + 94..off + 94 + 8]) && f == HexField(b[off + 54..off + 54 + 8])
    ensures n.None? || f.None? || off + HEADER + n.value > |b| ==> EntryAt(b, off) == None
    ensures n.Some? && f.Some? && off + HEADER + n.value <= |b| ==>
      EntryAt(b, off) == Some(Entry(CutName(b[off + HEADER..off + HEADER + n.value]),
                                    Align4(off + HEADER + n.value), f.value))
  {
    hide HexField, Align4;
    if n.Some? && n.value > 0 && off + HEADER + n.value <= |b| {
      var o := off + HEADER;
      assert b[o..o + n.value][..n.value - 1] == b[o..o + n.value - 1];
    }
  }

  function After(e: Entry): (r: nat)
    ensures r % 4 == 0 && e.off + e.size <= r
  {
    Align4(e.off + e.size)
  }

  /** The entries visited from `off` on: up to the trailer, the first damaged header or
      the first entry that does not fit. */
  function Visits(b: seq<Byte>, off: nat): (es: seq<Entry>)
    ensures forall i :: 0 <= i < |es| ==> es[i].off + es[i].size <= |b| && es[i].off % 4 == 0
    decreases |b| - off
  {
    if off + HEADER > |b| then []
    else
      var r := EntryAt(b, off);
      if r.None? || r.value.name == TRAILER || r.value.off + r.value.size > |b| then []
      else [r.value] + Visits(b, After(r.value))
  }

  predicate NameIs(name: seq<Byte>, want: seq<Byte>) {
    name == want || name == [0x2E, 0x2F] + want
  }

  /** The data offset of the first listed entry named `want` or "./" + `want`. */
  function FirstNamed(es: seq<Entry>, want: seq<Byte>): Option<nat> {
    if es == [] then None
    else if NameIs(es[0].name, want) then Some(es[0].off)
    else FirstNamed(es[1..], want)
  }

  // ---- reader 1: ramfs ----

  /** `for_each`: the entries the callback sees, in order. */
  method ForEach(b: seq<Byte>) returns (visited: seq<Entry>)
    ensures visited == Visits(b, 0)
  {
    hide HexField, MAGIC, TRAILER, Align4, EntryAt, Visits;
    visited := [];
    if |b| < HEADER { VisitStep(b, 0); return; }
    var off := 0;
    while off + HEADER <= |b|
      invariant off % 4 == 0
      invariant visited + Visits(b, off) == Visits(b, 0)
      decreases |b| - off
    {
      VisitStep(b, off);
      if b[off..off + 6] != MAGIC { BadMagic(b, off); break; }
      EntryFrom(b, off, HexField(b[off + 94..off + 94 + 8]), HexField(b[off + 54..off + 54 + 8]));
      var n := ReadHex(b, off + 94);
      if n.None? { break; }
      var f := ReadHex(b, off + 54);
      if f.None? { break; }
      var nameOff := off + HEADER;
      if nameOff + n.value > |b| { break; }
      var nameBytes := b[nameOff..nameOff + n.value];
      var name := if n.value > 0 then nameBytes[..n.value - 1] else nameBytes;
      var dataOff := Align4(nameOff + n.value);
      if name == TRAILER { break; }
      if dataOff + f.value > |b| { break; }
      ghost var e := Entry(name, dataOff, f.value);
      assert visited + ([e] + Visits(b, After(e))) == visited + [e] + Visits(b, After(e));
      visited := visited + [Entry(name, dataOff, f.value)];
      off := Align4(dataOff + f.value);
    }
    VisitStep(b, off);
    assert visited + [] == visited;
  }

  /** One step of the walk. */
  lemma VisitStep(b: seq<Byte>, off: nat)
    ensures off + HEADER > |b| ==> Visits(b, off) == []
    ensures off + HEADER <= |b| ==>
      var r := EntryAt(b, off);
      if r.None? || r.value.name == TRAILER || r.value.off + r.value.size > |b| then Visits(b, off) == []
      else Visits(b, off) == [r.value] + Visits(b, After(r.value))
  {
    hide EntryAt, TRAILER;
  }

  /** `ramfs::find`: the callback keeps the first entry with exactly that name. */
  method Find(b: seq<Byte>, path: seq<Byte>) returns (out: Option<(nat, nat)>)
    ensures out.Some? <==> exists i :: 0 <= i < |Visits(b, 0)| && Visits(b, 0)[i].name == path
    ensures out.Some? ==> exists i ::
      && 0 <= i < |Visits(b, 0)| && Visits(b, 0)[i].name == path
      && out.value == (Visits(b, 0)[i].off, Visits(b, 0)[i].size)
      && (forall j :: 0 <= j < i ==> Visits(b, 0)[j].name != path)
  {
    var es := ForEach(b);
    out := None;
    for k := 0 to |es|
      invariant out.None? ==> forall j :: 0 <= j < k ==> es[j].name != path
      invariant out.Some? ==> exists i ::
        && 0 <= i < k && es[i].name == path && out.value == (es[i].off, es[i].size)
        && (forall j :: 0 <= j < i ==> es[j].name != path)
    {
      if out.None? && es[k].name == path {
        out := Some((es[k].off, es[k].size));
      }
    }
  }

  // ---- reader 2: ai_initrd ----

  lemma DotSlash(name: seq<Byte>, want: seq<Byte>)
    ensures name == [0x2E, 0x2F] + want <==>
            |name| == |want| + 2 && name[0] == 0x2E && name[1] == 0x2F && name[2..] == want
  {
    if |name| >= 2 { assert name == [name[0], name[1]] + name[2..]; }
  }

  lemma PastTheEnd(b: seq<Byte>, off: nat, want: seq<Byte>)
    requires off + HEADER > |b|
    ensures FirstNamed(Visits(b, off), want) == None
  {
  }

  /** What a step of this reader means for the list the other reader produces. */
  lemma Step(b: seq<Byte>, off: nat, want: seq<Byte>)
    requires off + HEADER <= |b|
    ensures var e, r := EntryAt(b, off), FirstNamed(Visits(b, off), want);
      && (e.None? || e.value.name == TRAILER ==> r == None)
      && (e.Some? && e.value.name != TRAILER ==>
            if NameIs(e.value.name, want)
            then r == if e.value.off + e.value.size <= |b| then Some(e.value.off) else None
            else r == FirstNamed(Visits(b, After(e.value)), want))
  {
    hide EntryAt, TRAILER, NameIs;
  }

  /** `cpio_find`: it tests the data bound only on a match, and walks past entries that do
      not fit; on every image it still finds what the other reader would list first. */
  method CpioFind(b: seq<Byte>, want: seq<Byte>) returns (r: Option<nat>)
    ensures r == FirstNamed(Visits(b, 0), want)
  {
    hide HexField, MAGIC, TRAILER, Align4, EntryAt, Visits, FirstNamed;
    if |b| < HEADER { PastTheEnd(b, 0, want); return None; }
    var off := 0;
    while off + HEADER <= |b|
      invariant off % 4 == 0
      invariant FirstNamed(Visits(b, 0), want) == FirstNamed(Visits(b, off), want)
      decreases |b| - off
    {
      Step(b, off, want);
      if b[off..off + 6] != MAGIC { BadMagic(b, off); return None; }
      EntryFrom(b, off, HexField(b[off + 94..off + 94 + 8]), HexField(b[off + 54..off + 54 + 8]));
      var n := ReadHex(b, off + 94);
      if n.None? { return None; }
      var f := ReadHex(b, off + 54);
      if f.None? { return None; }
      var nameOff := off + HEADER;
      if nameOff + n.value > |b| { return None; }
      var nameBytes := b[nameOff..nameOff + n.value];
      var name := if n.value > 0 then nameBytes[..n.value - 1] else nameBytes;
      var dataOff := Align4(nameOff + n.value);
      if name == TRAILER { return None; }
      var isExact := name == want;
      var isDotSlash := |name| == |want| + 2 && name[0] == 0x2E && name[1] == 0x2F && name[2..] == want;
      DotSlash(name, want);
      if isExact || isDotSlash {
        return if dataOff + f.value <= |b| then Some(dataOff) else None;
      }
      off := Align4(dataOff + f.value);
    }
    PastTheEnd(b, off, want);
    return None;
  }

  // ---- the encoder, as cpio(5) describes it ----

  /** A file, its size and the size of its name as written in the header, and the header
      bytes the readers ignore: inode to mtime (48 bytes), the four device numbers (32) and
      the checksum (8). */
  datatype File = File(name: seq<Byte>, data: seq<Byte>, sizeField: seq<Byte>, nameField: seq<Byte>,
                       pre: seq<Byte>, mid: seq<Byte>, check: seq<Byte>)

  /** The two size fields spell the sizes in hexadecimal, with letters of either case. */
  predicate Encodable(f: File) {
    && |f.pre| == 48 && |f.mid| == 32 && |f.check| == 8
    && |f.sizeField| == 8 && HexField(f.sizeField) == Some(|f.data|)
    && |f.nameField| == 8 && HexField(f.nameField) == Some(|f.name| + 1)
  }

  /** A digit in upper case, as GNU cpio writes it, or in lower case. */
  function HexChar(d: nat, upper: bool): (c: Byte)
    requires d < 16
    ensures IsHex(c) && HexDigit(c) == d
  {
    if d < 10 then 0x30 + d else (if upper then 0x41 else 0x61) + (d - 10)
  }

  function HexEncode(n: nat, k: nat, upper: bool): (s: seq<Byte>)
    ensures |s| == k
  {
    if k == 0 then [] else HexEncode(n / 16, k - 1, upper) + [HexChar(n % 16, upper)]
  }

  function Pad(k: nat): seq<Byte> {
    seq(Align4(k) - k, _ => 0)
  }

  function Head(f: File): (h: seq<Byte>)
    requires Encodable(f)
    ensures |h| == HEADER
  {
    MAGIC + f.pre + f.sizeField + f.mid + f.nameField + f.check
  }

  function Encode(f: File): (r: seq<Byte>)
    requires Encodable(f)
    ensures |r| == Align4(HEADER + |f.name| + 1) + Align4(|f.data|)
  {
    Head(f) + (f.name + [0] + Pad(HEADER + |f.name| + 1)) + (f.data + Pad(|f.data|))
  }

  predicate AllEncodable(files: seq<File>) {
    forall i :: 0 <= i < |files| ==> Encodable(files[i]) && files[i].name != TRAILER
  }

  function EncodeAll(files: seq<File>): seq<Byte>
    requires AllEncodable(files)
  {
    if files == [] then [] else Encode(files[0]) + EncodeAll(files[1..])
  }

  // ---- round trip ----

  /** Either spelling of a number is read back as the number. */
  lemma {:induction false} HexRoundTrip(n: nat, k: nat, upper: bool)
    requires n < Pow16(k)
    ensures HexField(HexEncode(n, k, upper)) == Some(n)
    decreases k
  {
    if k > 0 {
      HexRoundTrip(n / 16, k - 1, upper);
      var s := HexEncode(n, k, upper);
      assert s[..|s| - 1] == HexEncode(n / 16, k - 1, upper);
    }
  }

  /** What cpio -o -H newc makes of a file; all sizes below 2^32 can be written. */
  function Packed(name: seq<Byte>, data: seq<Byte>, upper: bool,
                  pre: seq<Byte>, mid: seq<Byte>, check: seq<Byte>): File
  {
    File(name, data, HexEncode(|data|, 8, upper), HexEncode(|name| + 1, 8, upper), pre, mid, check)
  }

  lemma PackedIsEncodable(f: File, upper: bool)
    requires |f.name| + 1 < U32_RANGE && |f.data| < U32_RANGE
    requires f == Packed(f.name, f.data, upper, f.pre, f.mid, f.check)
    requires |f.pre| == 48 && |f.mid| == 32 && |f.check| == 8
    ensures Encodable(f)
  {
    Pow16Of8();
    HexRoundTrip(|f.data|, 8, upper);
    HexRoundTrip(|f.name| + 1, 8, upper);
  }

  lemma Slice(b: seq<Byte>, off: nat, e: seq<Byte>, i: nat, j: nat)
    requires off + |e| <= |b| && b[off..off + |e|] == e && i <= j <= |e|
    ensures b[off + i..off + j] == e[i..j]
  {
    forall k | i <= k < j
      ensures b[off + k] == e[k]
    {
      assert b[off..off + |e|][k] == b[off + k];
    }
  }

  lemma HeadFields(f: File)
    requires Encodable(f)
    ensures Head(f)[0..6] == MAGIC
    ensures HexField(Head(f)[54..62]) == Some(|f.data|)
    ensures HexField(Head(f)[94..102]) == Some(|f.name| + 1)
  {
    hide HexField;
    var h := Head(f);
    assert h[0..6] == MAGIC;
    assert h[54..62] == f.sizeField;
    assert h[94..102] == f.nameField;
  }

  lemma EncodeParts(f: File)
    requires Encodable(f)
    ensures var e, d := Encode(f), Align4(HEADER + |f.name| + 1);
      && e[0..HEADER] == Head(f)
      && e[HEADER..HEADER + |f.name|] == f.name
      && e[d..d + |f.data|] == f.data
  {
  }

  lemma AlignShift(off: nat, k: nat)
    requires off % 4 == 0
    ensures Align4(off + k) == off + Align4(k)
  {
  }

  /** Where the readers should find a file encoded at `off`. */
  function EntryOf(f: File, off: nat): Entry {
    Entry(f.name, off + Align4(HEADER + |f.name| + 1), |f.data|)
  }

  /** An encoded file, anywhere on a 4-byte boundary, is read back as itself. */
  lemma DecodesAt(b: seq<Byte>, off: nat, f: File)
    requires Encodable(f) && off % 4 == 0
    requires off + |Encode(f)| <= |b| && b[off..off + |Encode(f)|] == Encode(f)
    ensures var e := EntryOf(f, off);
      && EntryAt(b, off) == Some(e) && e.name == f.name && e.size == |f.data|
      && After(e) == off + |Encode(f)|
      && e.off + e.size <= off + |Encode(f)| && b[e.off..e.off + e.size] == f.data
  {
    hide Encode, Head, HexField, MAGIC, Align4, EntryAt, Encodable;
    var n := |f.name| + 1;
    HeaderAt(b, off, f);
    BodyAt(b, off, f);
    EntryFrom(b, off, Some(n), Some(|f.data|));
    AlignShift(off, HEADER + n);
    AlignShift(off + Align4(HEADER + n), |f.data|);
  }

  lemma HeaderAt(b: seq<Byte>, off: nat, f: File)
    requires Encodable(f)
    requires off + |Encode(f)| <= |b| && b[off..off + |Encode(f)|] == Encode(f)
    ensures off + HEADER <= |b| && b[off..off + 6] == MAGIC
    ensures HexField(b[off + 54..off + 54 + 8]) == Some(|f.data|)
    ensures HexField(b[off + 94..off + 94 + 8]) == Some(|f.name| + 1)
  {
    hide Encode, Head, HexField, MAGIC;
    HeadFields(f);
    EncodeParts(f);
    Slice(b, off, Encode(f), 0, HEADER);
    Slice(b, off, Head(f), 0, 6);
    Slice(b, off, Head(f), 54, 62);
    Slice(b, off, Head(f), 94, 102);
  }

  lemma BodyAt(b: seq<Byte>, off: nat, f: File)
    requires Encodable(f)
    requires off + |Encode(f)| <= |b| && b[off..off + |Encode(f)|] == Encode(f)
    ensures var d, n := off + Align4(HEADER + |f.name| + 1), |f.name| + 1;
      && off + HEADER + n <= |b| && CutName(b[off + HEADER..off + HEADER + n]) == f.name
      && d + |f.data| <= |b| && b[d..d + |f.data|] == f.data
  {
    hide Encode, Head, Encodable;
    var e, n, d := Encode(f), |f.name| + 1, Align4(HEADER + |f.name| + 1);
    EncodeParts(f);
    hide Align4;
    Slice(b, off, e, HEADER, HEADER + |f.name|);
    assert b[off + HEADER..off + HEADER + n][..|f.name|] == b[off + HEADER..off + HEADER + |f.name|];
    Slice(b, off, e, d, d + |f.data|);
  }

  /** The names and contents a reader hands out. */
  function Listing(b: seq<Byte>, es: seq<Entry>): (r: seq<(seq<Byte>, seq<Byte>)>)
    requires forall i :: 0 <= i < |es| ==> es[i].off + es[i].size <= |b|
    ensures |r| == |es|
  {
    seq(|es|, i requires 0 <= i < |es| => (es[i].name, b[es[i].off..es[i].off + es[i].size]))
  }

  function Named(files: seq<File>): (r: seq<(seq<Byte>, seq<Byte>)>)
    ensures |r| == |files|
  {
    seq(|files|, i requires 0 <= i < |files| => (files[i].name, files[i].data))
  }

  lemma ListingCons(b: seq<Byte>, e: Entry, es: seq<Entry>)
    requires e.off + e.size <= |b| && forall i :: 0 <= i < |es| ==> es[i].off + es[i].size <= |b|
    ensures Listing(b, [e] + es) == [(e.name, b[e.off..e.off + e.size])] + Listing(b, es)
  {
  }

  lemma NamedCons(files: seq<File>)
    requires files != []
    ensures Named(files) == [(files[0].name, files[0].data)] + Named(files[1..])
  {
  }

  /** The bytes from `off` on are an archive of these files. */
  ghost predicate ArchiveAt(b: seq<Byte>, off: nat, files: seq<File>, trailer: File, rest: seq<Byte>) {
    && AllEncodable(files) && Encodable(trailer) && trailer.name == TRAILER
    && off % 4 == 0 && off <= |b| && b[off..] == EncodeAll(files) + Encode(trailer) + rest
  }

  lemma ArchiveEnds(b: seq<Byte>, off: nat, trailer: File, rest: seq<Byte>)
    requires ArchiveAt(b, off, [], trailer, rest)
    ensures Visits(b, off) == []
  {
    hide Encode, Visits, Encodable;
    assert EncodeAll([]) + Encode(trailer) + rest == Encode(trailer) + rest;
    FoundFirst(b, off, trailer, rest);
  }

  lemma Regroup(a: seq<Byte>, b: seq<Byte>, c: seq<Byte>, d: seq<Byte>)
    ensures a + b + c + d == a + (b + c + d)
  {
  }

  lemma ArchiveGoesOn(b: seq<Byte>, off: nat, files: seq<File>, trailer: File, rest: seq<Byte>)
    requires ArchiveAt(b, off, files, trailer, rest) && files != []
    ensures Encodable(files[0])
    ensures var e, next := EntryOf(files[0], off), off + |Encode(files[0])|;
      && ArchiveAt(b, next, files[1..], trailer, rest) && next + HEADER <= |b|
      && e.off + e.size <= next && b[e.off..e.off + e.size] == files[0].data && e.name == files[0].name
      && Visits(b, off) == [e] + Visits(b, next)
  {
    hide Encode, Visits, Encodable, TRAILER;
    var f, tail := files[0], files[1..];
    var after := EncodeAll(tail) + Encode(trailer) + rest;
    Regroup(Encode(f), EncodeAll(tail), Encode(trailer), rest);
    FoundFirst(b, off, f, after);
    AtLeastHeader(trailer);
    assert |after| >= HEADER;
    EncodeAligned(f);
  }

  lemma AtLeastHeader(f: File)
    requires Encodable(f)
    ensures |Encode(f)| >= HEADER
  {
    hide Encode, Align4, Encodable;
  }

  lemma EncodeAligned(f: File)
    requires Encodable(f)
    ensures |Encode(f)| % 4 == 0
  {
    hide Encode, Align4, Encodable;
  }

  lemma {:induction false} WalksFrom(b: seq<Byte>, off: nat, files: seq<File>, trailer: File, rest: seq<Byte>)
    requires ArchiveAt(b, off, files, trailer, rest)
    ensures Listing(b, Visits(b, off)) == Named(files)
    decreases |files|
  {
    hide Encode, EntryOf, Visits, ArchiveAt;
    if files == [] {
      ArchiveEnds(b, off, trailer, rest);
    } else {
      ArchiveGoesOn(b, off, files, trailer, rest);
      var next := off + |Encode(files[0])|;
      WalksFrom(b, next, files[1..], trailer, rest);
      ListingCons(b, EntryOf(files[0], off), Visits(b, next));
      NamedCons(files);
    }
  }

  /** Behind every file of an archive at least the trailer's header follows. */
  lemma {:induction false} RoomBehind(b: seq<Byte>, off: nat, files: seq<File>, trailer: File, rest: seq<Byte>)
    requires ArchiveAt(b, off, files, trailer, rest)
    ensures forall i :: 0 <= i < |Visits(b, off)| ==> Visits(b, off)[i].off + Visits(b, off)[i].size + HEADER <= |b|
    decreases |files|
  {
    hide Encode, EntryOf, Visits, ArchiveAt;
    if files == [] {
      ArchiveEnds(b, off, trailer, rest);
    } else {
      ArchiveGoesOn(b, off, files, trailer, rest);
      RoomBehind(b, off + |Encode(files[0])|, files[1..], trailer, rest);
    }
  }

  /** One step of the walk over an encoded file. */
  lemma FoundFirst(b: seq<Byte>, off: nat, f: File, after: seq<Byte>)
    requires Encodable(f) && off % 4 == 0 && off <= |b| && b[off..] == Encode(f) + after
    ensures off + |Encode(f)| <= |b| && b[off + |Encode(f)|..] == after
    ensures f.name == TRAILER ==> Visits(b, off) == []
    ensures f.name != TRAILER ==>
      var e := EntryOf(f, off);
      && e.name == f.name && e.off + e.size <= off + |Encode(f)| && b[e.off..e.off + e.size] == f.data
      && Visits(b, off) == [e] + Visits(b, off + |Encode(f)|)
  {
    hide Encode, EntryAt, EntryOf, After, TRAILER, Visits, Encodable;
    var e := Encode(f);
    assert b[off..off + |e|] == b[off..][..|e|] == e;
    assert b[off + |e|..] == b[off..][|e|..] == after;
    DecodesAt(b, off, f);
    VisitStep(b, off);
  }

  /** Round trip: whatever the unused header bytes hold and whatever follows the trailer,
      the walk lists exactly the archived files, in order, with their data. */
  lemma ArchiveRoundTrip(files: seq<File>, trailer: File, rest: seq<Byte>)
    requires AllEncodable(files) && Encodable(trailer) && trailer.name == TRAILER
    ensures var b := EncodeAll(files) + Encode(trailer) + rest;
      Listing(b, Visits(b, 0)) == Named(files)
  {
    var b := EncodeAll(files) + Encode(trailer) + rest;
    assert b[0..] == b;
    WalksFrom(b, 0, files, trailer, rest);
  }

  // ---- what the two readers find ----

  /** The result of `cpio_find` without recursion: the first match, or nothing when no
      listed entry matches. */
  lemma {:induction false} FirstNamedMeaning(es: seq<Entry>, want: seq<Byte>)
    ensures FirstNamed(es, want).None? <==> forall i :: 0 <= i < |es| ==> !NameIs(es[i].name, want)
    ensures FirstNamed(es, want).Some? ==> exists i ::
      && 0 <= i < |es| && NameIs(es[i].name, want) && FirstNamed(es, want) == Some(es[i].off)
      && (forall j :: 0 <= j < i ==> !NameIs(es[j].name, want))
  {
    if es != [] && !NameIs(es[0].name, want) {
      var tail := es[1..];
      FirstNamedMeaning(tail, want);
      if FirstNamed(tail, want).None? {
        forall i | 0 <= i < |es| ensures !NameIs(es[i].name, want) {
          if i > 0 { assert es[i] == tail[i - 1]; }
        }
      } else {
        var i :| 0 <= i < |tail| && NameIs(tail[i].name, want) && FirstNamed(tail, want) == Some(tail[i].off)
                 && (forall j :: 0 <= j < i ==> !NameIs(tail[j].name, want));
        assert es[i + 1] == tail[i];
        forall j | 0 <= j < i + 1 ensures !NameIs(es[j].name, want) {
          if j > 0 { assert es[j] == tail[j - 1]; }
        }
      }
    }
  }

  /** A file packed under either spelling of its name is found, and its bytes are there. */
  lemma ArchivedFileFound(files: seq<File>, trailer: File, rest: seq<Byte>, want: seq<Byte>, i: nat)
    requires AllEncodable(files) && Encodable(trailer) && trailer.name == TRAILER
    requires i < |files| && (files[i].name == want || files[i].name == [0x2E, 0x2F] + want)
    requires forall j :: 0 <= j < i ==> files[j].name != want && files[j].name != [0x2E, 0x2F] + want
    ensures var b := EncodeAll(files) + Encode(trailer) + rest;
      var r := FirstNamed(Visits(b, 0), want);
      && r.Some? && r.value % 4 == 0
      && r.value + |files[i].data| + HEADER <= |b|
      && b[r.value..r.value + |files[i].data|] == files[i].data
  {
    hide Visits, Encode, EncodeAll, AllEncodable, TRAILER, Encodable;
    var b := EncodeAll(files) + Encode(trailer) + rest;
    ArchiveRoundTrip(files, trailer, rest);
    assert b[0..] == b;
    RoomBehind(b, 0, files, trailer, rest);
    var es := Visits(b, 0);
    forall j | 0 <= j < |es| ensures es[j].name == files[j].name {
      assert Listing(b, es)[j] == Named(files)[j];
    }
    FirstNamedMeaning(es, want);
    var k :| 0 <= k < |es| && NameIs(es[k].name, want) && FirstNamed(es, want) == Some(es[k].off)
             && (forall j :: 0 <= j < k ==> !NameIs(es[j].name, want));
    assert k == i;
    assert Listing(b, es)[i] == Named(files)[i];
  }
}
