/** What a text console has ever shown: an unbounded sequence of rows with a cursor, and
    the console operations on it.  The screen is a window on its last rows. */
module Transcript {
  import opened Bytes
  import opened RingArithmetic

  type Cell = n: nat | n < 0x1_0000

  /** A style in the high byte, a character in the low one. */
  function Glyph(style: Byte, b: Byte): Cell {
    style as nat * 0x100 + b as nat
  }

  const SPACE: Byte := 0x20
  const NEWLINE: Byte := 0x0A
  const RETURN: Byte := 0x0D
  const DEFAULT_STYLE: Byte := 0x0F

  // ---- the transcript ----

  /** All rows ever shown, one after the other; the last `height` of them are on screen.
      The cursor is given by its absolute row. */
  datatype Doc = Doc(width: nat, height: nat, text: seq<Cell>, lines: nat, row: nat, col: nat, style: Byte)

  ghost predicate DocInv(d: Doc) {
    && 0 < d.width && 0 < d.height <= d.lines
    && |d.text| == d.lines * d.width
    && d.lines - d.height <= d.row < d.lines && d.col <= d.width
  }

  function Blank(width: nat, style: Byte): seq<Cell> {
    seq(width, _ => Glyph(style, SPACE))
  }

  function Cleared(width: nat, height: nat, style: Byte): Doc {
    Doc(width, height, Blank(height * width, style), height, 0, 0, style)
  }

  /** Below the last row a new blank one begins. */
  function NewLine(d: Doc): Doc {
    if d.row + 1 < d.lines then d.(row := d.row + 1, col := 0)
    else d.(text := d.text + Blank(d.width, d.style), lines := d.lines + 1, row := d.row + 1, col := 0)
  }

  function Put(d: Doc, b: Byte): (r: Doc)
    requires DocInv(d) && d.col < d.width
    ensures |r.text| == |d.text| && r == d.(text := r.text)
  {
    PlaceInText(d);
    d.(text := d.text[d.row * d.width + d.col := Glyph(d.style, b)])
  }

  /** A byte in a full row first moves to the next one. */
  function WriteByte(d: Doc, b: Byte): Doc
    requires DocInv(d)
  {
    NewLineKeeps(d);
    var e := if d.col >= d.width then NewLine(d) else d;
    Put(e, b).(col := e.col + 1)
  }

  /** Back over the left margin only as far as the first row on screen. */
  function Backspace(d: Doc): Doc
    requires DocInv(d)
  {
    if d.col > 0 then Put(d.(col := d.col - 1), SPACE)
    else if d.row > d.lines - d.height then Put(d.(row := d.row - 1, col := d.width - 1), SPACE)
    else d
  }

  function Feed(d: Doc, b: Byte): Doc
    requires DocInv(d)
  {
    if b == NEWLINE then NewLine(d) else if b == RETURN then d.(col := 0) else WriteByte(d, b)
  }

  function WriteStr(d: Doc, s: seq<Byte>): (r: Doc)
    requires DocInv(d)
    ensures DocInv(r) && r.width == d.width && r.height == d.height
    decreases |s|
  {
    if s == [] then d else FeedKeeps(d, s[0]); WriteStr(Feed(d, s[0]), s[1..])
  }

  /** `write_char`: the UTF-8 bytes of one character; only a newline is special. */
  function WriteChar(d: Doc, encoded: seq<Byte>): (r: Doc)
    requires DocInv(d)
    ensures DocInv(r) && r.width == d.width && r.height == d.height
  {
    NewLineKeeps(d);
    if encoded == [NEWLINE] then NewLine(d) else WriteBytes(d, encoded)
  }

  function WriteBytes(d: Doc, s: seq<Byte>): (r: Doc)
    requires DocInv(d)
    ensures DocInv(r) && r.width == d.width && r.height == d.height
    decreases |s|
  {
    if s == [] then d else WriteByteKeeps(d, s[0]); WriteBytes(WriteByte(d, s[0]), s[1..])
  }

  datatype Op = Str(s: seq<Byte>) | Char(encoded: seq<Byte>) | Line | Erase | Style(style: Byte)

  function Apply(d: Doc, op: Op): (r: Doc)
    requires DocInv(d)
    ensures DocInv(r) && r.width == d.width && r.height == d.height
  {
    NewLineKeeps(d);
    BackspaceKeeps(d);
    match op
    case Str(s) => WriteStr(d, s)
    case Char(e) => WriteChar(d, e)
    case Line => NewLine(d)
    case Erase => Backspace(d)
    case Style(st) => d.(style := st)
  }

  function ApplyAll(d: Doc, ops: seq<Op>): (r: Doc)
    requires DocInv(d)
    ensures DocInv(r) && r.width == d.width && r.height == d.height
    decreases |ops|
  {
    if ops == [] then d else ApplyAll(Apply(d, ops[0]), ops[1..])
  }

  // ---- addressing ----

  lemma CellInGrid(row: nat, col: nat, rows: nat, width: nat)
    requires row < rows && col < width
    ensures row * width + col < rows * width
  {
    MulMonotone(row + 1, rows, width);
  }

  lemma PlaceInText(d: Doc)
    requires DocInv(d) && d.col < d.width
    ensures d.row * d.width + d.col < |d.text|
  {
    CellInGrid(d.row, d.col, d.lines, d.width);
  }

  lemma AddRow(n: nat, width: nat)
    ensures (n + 1) * width == n * width + width
  {
  }

  lemma NewLineKeeps(d: Doc)
    requires DocInv(d)
    ensures DocInv(NewLine(d)) && NewLine(d).col == 0
  {
    AddRow(d.lines, d.width);
  }

  lemma PutKeeps(d: Doc, b: Byte)
    requires DocInv(d) && d.col < d.width
    ensures var e := Put(d, b);
      && DocInv(e) && DocInv(e.(col := e.col + 1)) && e == d.(text := e.text)
  {
    hide Put, DocInv;
    var e := Put(d, b);
    SameShape(d, e);
    SameShape(d, e.(col := e.col + 1));
  }

  lemma SameShape(d: Doc, e: Doc)
    requires DocInv(d) && |e.text| == |d.text| && e.width == d.width && e.height == d.height
    requires e.lines == d.lines && e.row == d.row && e.col <= e.width
    ensures DocInv(e)
  {
  }

  lemma WriteByteKeeps(d: Doc, b: Byte)
    requires DocInv(d)
    ensures DocInv(WriteByte(d, b)) && WriteByte(d, b).width == d.width && WriteByte(d, b).height == d.height
  {
    hide Put, DocInv;
    Fits(d);
    NewLineKeeps(d);
    var e := if d.col >= d.width then NewLine(d) else d;
    Fits(e);
    PutKeeps(e, b);
  }

  lemma Fits(d: Doc)
    requires DocInv(d)
    ensures 0 < d.width && 0 < d.height <= d.lines && d.col <= d.width
    ensures d.col > 0 ==> DocInv(d.(col := d.col - 1))
    ensures d.row > d.lines - d.height ==> DocInv(d.(row := d.row - 1, col := d.width - 1))
  {
  }

  lemma BackspaceKeeps(d: Doc)
    requires DocInv(d)
    ensures DocInv(Backspace(d)) && Backspace(d).width == d.width && Backspace(d).height == d.height
  {
    hide Put, DocInv;
    Fits(d);
    if d.col > 0 { PutKeeps(d.(col := d.col - 1), SPACE); }
    else if d.row > d.lines - d.height { PutKeeps(d.(row := d.row - 1, col := d.width - 1), SPACE); }
  }

  lemma FeedKeeps(d: Doc, b: Byte)
    requires DocInv(d)
    ensures DocInv(Feed(d, b)) && Feed(d, b).width == d.width && Feed(d, b).height == d.height
  {
    NewLineKeeps(d);
    WriteByteKeeps(d, b);
  }

  // ---- what has scrolled away stays as it was ----

  /** The first position on screen. */
  function Top(d: Doc): int {
    (d.lines - d.height) * d.width
  }

  /** The transcript is at least as long, and the rows above d's screen are the same. */
  predicate Grew(d: Doc, e: Doc) {
    && e.width == d.width && e.height == d.height && d.lines <= e.lines
    && |d.text| <= |e.text| && 0 <= Top(d) <= |d.text|
    && e.text[..Top(d)] == d.text[..Top(d)]
  }

  lemma TopBound(d: Doc)
    requires DocInv(d)
    ensures 0 <= Top(d) <= d.row * d.width && Top(d) + d.height * d.width == |d.text|
  {
    MulMonotone(d.lines - d.height, d.row, d.width);
    assert (d.lines - d.height) * d.width + d.height * d.width == d.lines * d.width;
  }

  lemma PutGrows(d: Doc, b: Byte)
    requires DocInv(d) && d.col < d.width
    ensures Grew(d, Put(d, b))
  {
    TopBound(d);
    PlaceInText(d);
  }

  lemma NewLineGrows(d: Doc)
    requires DocInv(d)
    ensures Grew(d, NewLine(d))
  {
    TopBound(d);
  }

  lemma GrewTransitive(d: Doc, e: Doc, f: Doc)
    requires DocInv(d) && DocInv(e) && Grew(d, e) && Grew(e, f)
    ensures Grew(d, f)
  {
    MulMonotone(d.lines - d.height, e.lines - e.height, d.width);
    assert e.text[..Top(e)][..Top(d)] == f.text[..Top(e)][..Top(d)];
    assert e.text[..Top(e)][..Top(d)] == e.text[..Top(d)] && f.text[..Top(e)][..Top(d)] == f.text[..Top(d)];
  }

  lemma WriteByteGrows(d: Doc, b: Byte)
    requires DocInv(d)
    ensures Grew(d, WriteByte(d, b))
  {
    NewLineKeeps(d);
    NewLineGrows(d);
    var e := if d.col >= d.width then NewLine(d) else d;
    TopBound(d);
    PutGrows(e, b);
    hide Put, NewLine;
    GrewTransitive(d, e, Put(e, b));
  }

  lemma BackspaceGrows(d: Doc)
    requires DocInv(d)
    ensures Grew(d, Backspace(d))
  {
    TopBound(d);
    if d.col > 0 { PutGrows(d.(col := d.col - 1), SPACE); }
    else if d.row > d.lines - d.height { PutGrows(d.(row := d.row - 1, col := d.width - 1), SPACE); }
  }

  lemma {:induction false} WriteStrGrows(d: Doc, s: seq<Byte>)
    requires DocInv(d)
    ensures Grew(d, WriteStr(d, s))
    decreases |s|
  {
    hide WriteByte, NewLine, Put, Grew;
    if s == [] { GrewSame(d); }
    else {
      NewLineGrows(d);
      WriteByteGrows(d, s[0]);
      GrewSame(d);
      FeedKeeps(d, s[0]);
      ReturnGrows(d);
      WriteStrGrows(Feed(d, s[0]), s[1..]);
      GrewTransitive(d, Feed(d, s[0]), WriteStr(d, s));
    }
  }

  lemma GrewSame(d: Doc)
    requires DocInv(d)
    ensures Grew(d, d)
  {
    TopBound(d);
  }

  lemma ReturnGrows(d: Doc)
    requires DocInv(d)
    ensures Grew(d, d.(col := 0))
  {
    TopBound(d);
  }

  lemma {:induction false} WriteBytesGrows(d: Doc, s: seq<Byte>)
    requires DocInv(d)
    ensures Grew(d, WriteBytes(d, s))
    decreases |s|
  {
    hide WriteByte, Grew;
    if s == [] { GrewSame(d); }
    else {
      WriteByteGrows(d, s[0]);
      WriteByteKeeps(d, s[0]);
      WriteBytesGrows(WriteByte(d, s[0]), s[1..]);
      GrewTransitive(d, WriteByte(d, s[0]), WriteBytes(d, s));
    }
  }

  lemma ApplyGrows(d: Doc, op: Op)
    requires DocInv(d)
    ensures Grew(d, Apply(d, op))
  {
    match op
    case Str(s) => WriteStrGrows(d, s);
    case Char(e) => if e == [NEWLINE] { NewLineGrows(d); } else { WriteBytesGrows(d, e); }
    case Line => NewLineGrows(d);
    case Erase => BackspaceGrows(d);
    case Style(_) => GrewSame(d);
  }

  /** Over any sequence of operations the transcript only grows, and rows that have left
      the screen are never changed again. */
  lemma {:induction false} ScrollbackIsPermanent(d: Doc, ops: seq<Op>)
    requires DocInv(d)
    ensures Grew(d, ApplyAll(d, ops))
    decreases |ops|
  {
    hide Apply, Grew;
    if ops == [] { GrewSame(d); }
    else {
      ApplyGrows(d, ops[0]);
      ScrollbackIsPermanent(Apply(d, ops[0]), ops[1..]);
      GrewTransitive(d, Apply(d, ops[0]), ApplyAll(d, ops));
    }
  }

  // ---- plain text flows ----

  /** The text holds `t` from the top left on, then blanks, and the cursor follows it. */
  ghost predicate Flows(d: Doc, t: seq<Byte>, style: Byte) {
    && DocInv(d) && d.style == style
    && d.row * d.width + d.col == |t| <= |d.text|
    && forall i :: 0 <= i < |d.text| ==> d.text[i] == Glyph(style, if i < |t| then t[i] else SPACE)
  }

  lemma FlowsOn(d: Doc, t: seq<Byte>, style: Byte, b: Byte)
    requires Flows(d, t, style)
    ensures Flows(WriteByte(d, b), t + [b], style)
  {
    NewLineKeeps(d);
    AddRow(d.row, d.width);
    var e := if d.col >= d.width then NewLine(d) else d;
    assert Flows(e, t, style);
    PlaceInText(e);
  }

  /** On a cleared console, text without line breaks fills the rows cell after cell: the
      i-th byte stands in row i / width, column i % width, however far it has scrolled. */
  lemma {:induction false} TextFlows(d: Doc, t: seq<Byte>, s: seq<Byte>, style: Byte)
    requires Flows(d, t, style) && NEWLINE !in s && RETURN !in s
    ensures Flows(WriteStr(d, s), t + s, style)
    decreases |s|
  {
    hide Flows, WriteByte;
    if s == [] {
      assert t + s == t;
    } else {
      FlowsInv(d, t, style);
      FlowsOn(d, t, style, s[0]);
      assert Feed(d, s[0]) == WriteByte(d, s[0]);
      TextFlows(WriteByte(d, s[0]), t + [s[0]], s[1..], style);
      assert t + s == t + [s[0]] + s[1..];
    }
  }

  lemma FlowsInv(d: Doc, t: seq<Byte>, style: Byte)
    requires Flows(d, t, style)
    ensures DocInv(d)
  {
  }

  lemma ClearedFlows(width: nat, height: nat, style: Byte, s: seq<Byte>)
    requires 0 < width && 0 < height && NEWLINE !in s && RETURN !in s
    ensures var d := WriteStr(Cleared(width, height, style), s);
      && Flows(d, s, style)
      && forall i :: 0 <= i < |s| ==> d.text[i] == Glyph(style, s[i])
  {
    assert Flows(Cleared(width, height, style), [], style);
    TextFlows(Cleared(width, height, style), [], s, style);
    assert [] + s == s;
  }

  // ---- erasing ----

  /** The cursor's place in the text; in a full row it is behind the row's last cell. */
  function Place(d: Doc): nat {
    d.row * d.width + d.col
  }

  /** An erase moves the cursor back by one place and makes the cell it arrives at a blank of
      the current style; every other cell stays.  In the first place on screen it does
      nothing at all. */
  lemma EraseChangesOneCell(d: Doc)
    requires DocInv(d)
    ensures var e := Backspace(d);
      if d.col == 0 && d.row == d.lines - d.height then e == d
      else
        && 0 < Place(d) <= |d.text| && Place(e) == Place(d) - 1 && e.col < e.width
        && e.text == d.text[Place(d) - 1 := Glyph(d.style, 0x20)]
        && e == d.(text := e.text, row := e.row, col := e.col)
  {
    if d.col > 0 {
      PlaceInText(d.(col := d.col - 1));
    } else if d.row > d.lines - d.height {
      PlaceInText(d.(row := d.row - 1, col := d.width - 1));
      AddRow(d.row - 1, d.width);
    }
  }

  /** The cell the next byte will be written to. */
  function Target(d: Doc): (e: Doc)
    requires DocInv(d)
    ensures DocInv(e) && e.col < e.width
  {
    NewLineKeeps(d);
    if d.col >= d.width then NewLine(d) else d
  }

  /** Erasing after writing one byte gives the transcript back, or after a wrap that with the
      cursor at the start of the new row, if and only if the byte was written on a blank of
      the current style; a new row at the end of the transcript always is blank. */
  lemma EraseUndoesWrite(d: Doc, b: Byte)
    requires DocInv(d)
    ensures var e := Target(d);
      && DocInv(WriteByte(d, b)) && Place(e) < |e.text|
      && (Backspace(WriteByte(d, b)) == e <==> e.text[Place(e)] == Glyph(d.style, 0x20))
      && (d.col == d.width && d.row + 1 == d.lines ==> e.text[Place(e)] == Glyph(d.style, 0x20))
  {
    var e := Target(d);
    PlaceInText(e);
    WriteByteKeeps(d, b);
    var w := WriteByte(d, b);
    assert w == e.(text := e.text[Place(e) := Glyph(d.style, b)], col := e.col + 1);
    assert Place(w) == Place(e) + 1;
    WrittenThenErased(e, w, b);
    if d.col == d.width && d.row + 1 == d.lines { assert Place(e) == |d.text|; }
  }

  lemma WrittenThenErased(e: Doc, w: Doc, b: Byte)
    requires DocInv(e) && DocInv(w) && e.col < e.width && Place(e) < |e.text|
    requires w == e.(text := e.text[Place(e) := Glyph(e.style, b)], col := e.col + 1)
    ensures Backspace(w) == e <==> e.text[Place(e)] == Glyph(e.style, 0x20)
  {
    hide Backspace, DocInv;
    EraseChangesOneCell(w);
    var x := Backspace(w);
    SplitUnique(e.width, x.row, x.col, e.row, e.col);
    assert x.text == e.text[Place(e) := Glyph(e.style, 0x20)];
    assert x.text[Place(e)] == Glyph(e.style, 0x20);
    if e.text[Place(e)] == Glyph(e.style, 0x20) { assert x.text == e.text; }
  }

  /** An erase takes the last byte of flowing text back, as long as that is on screen. */
  lemma EraseFlowsBack(d: Doc, t: seq<Byte>, b: Byte, style: Byte)
    requires Flows(d, t + [b], style) && !(d.col == 0 && d.row == d.lines - d.height)
    ensures Flows(Backspace(d), t, style)
  {
    BackspaceKeeps(d);
    EraseChangesOneCell(d);
    hide Backspace, DocInv;
    var e := Backspace(d);
    forall i | 0 <= i < |e.text| ensures e.text[i] == Glyph(style, if i < |t| then t[i] else SPACE) {
      if i < |t| { assert (t + [b])[i] == t[i]; }
    }
  }

  /** Style and character are the two bytes of a cell. */
  lemma GlyphBytes(style: Byte, b: Byte)
    ensures Glyph(style, b) / 0x100 == style && Glyph(style, b) % 0x100 == b
  {
  }

  // ---- lines ----

  function At(d: Doc, r: nat, c: nat): Cell
    requires DocInv(d) && r < d.lines && c < d.width
  {
    CellInGrid(r, c, d.lines, d.width);
    d.text[r * d.width + c]
  }

  lemma InText(d: Doc, r: nat, c: nat)
    requires DocInv(d) && r < d.lines && c < d.width
    ensures r * d.width + c < |d.text|
  {
    CellInGrid(r, c, d.lines, d.width);
  }

  lemma PutAt(d: Doc, b: Byte, r: nat, c: nat)
    requires DocInv(d) && d.col < d.width && r < d.lines && c < d.width
    ensures DocInv(Put(d, b))
    ensures At(Put(d, b), r, c) == if r == d.row && c == d.col then Glyph(d.style, b) else At(d, r, c)
  {
    hide Glyph, DocInv;
    PutKeeps(d, b);
    PlaceInText(d);
    InText(d, r, c);
    if r * d.width + c == d.row * d.width + d.col { SplitUnique(d.width, r, c, d.row, d.col); }
  }

  lemma NewLineAt(d: Doc, r: nat, c: nat)
    requires DocInv(d) && c < d.width && r < NewLine(d).lines
    ensures DocInv(NewLine(d)) && At(NewLine(d), r, c) == if r < d.lines then At(d, r, c) else Glyph(d.style, SPACE)
  {
    NewLineKeeps(d);
    if r < d.lines { CellInGrid(r, c, d.lines, d.width); }
    else { CellInGrid(r, c, r + 1, d.width); AddRow(r, d.width); }
  }

  function LastOf(ls: seq<seq<Byte>>): seq<Byte>
    requires ls != []
  {
    ls[|ls| - 1]
  }

  /** What a page of text lines has at row r, column c: blanks behind and below the text. */
  function CharAt(ls: seq<seq<Byte>>, r: nat, c: nat): Byte {
    if r < |ls| && c < |ls[r]| then ls[r][c] else 0x20
  }

  /** The transcript is this page, row by row, with the cursor in column col of its last line. */
  ghost predicate Shows(d: Doc, ls: seq<seq<Byte>>, col: nat, style: Byte) {
    && DocInv(d) && d.style == style && ls != []
    && d.row == |ls| - 1 && d.col == col <= |LastOf(ls)|
    && d.lines == (if |ls| <= d.height then d.height else |ls|)
    && (forall i :: 0 <= i < |ls| ==> |ls[i]| <= d.width)
    && forall r, c :: 0 <= r < d.lines && 0 <= c < d.width ==> At(d, r, c) == Glyph(style, CharAt(ls, r, c))
  }

  /** The line after s has been written over it from column col on. */
  function Over(line: seq<Byte>, col: nat, s: seq<Byte>): seq<Byte>
    requires col <= |line|
  {
    line[..col] + s + if col + |s| < |line| then line[col + |s|..] else []
  }

  function WithLast(ls: seq<seq<Byte>>, line: seq<Byte>): seq<seq<Byte>>
    requires ls != []
  {
    ls[|ls| - 1 := line]
  }

  lemma OverChar(ls: seq<seq<Byte>>, col: nat, b: Byte, r: nat, c: nat)
    requires ls != [] && col <= |LastOf(ls)|
    ensures CharAt(WithLast(ls, Over(LastOf(ls), col, [b])), r, c) ==
            if r == |ls| - 1 && c == col then b else CharAt(ls, r, c)
  {
  }

  lemma ShowsByte(d: Doc, ls: seq<seq<Byte>>, col: nat, style: Byte, b: Byte)
    requires Shows(d, ls, col, style) && col < d.width
    ensures Shows(WriteByte(d, b), WithLast(ls, Over(LastOf(ls), col, [b])), col + 1, style)
  {
    var line := Over(LastOf(ls), col, [b]);
    var ls' := WithLast(ls, line);
    var e := WriteByte(d, b);
    WriteByteKeeps(d, b);
    assert e == Put(d, b).(col := col + 1);
    hide Put, WriteByte, Glyph;
    forall r, c | 0 <= r < e.lines && 0 <= c < e.width ensures At(e, r, c) == Glyph(style, CharAt(ls', r, c)) {
      PutAt(d, b, r, c);
      OverChar(ls, col, b, r, c);
      assert At(e, r, c) == At(Put(d, b), r, c);
      assert At(d, r, c) == Glyph(style, CharAt(ls, r, c));
    }
  }

  lemma ShowsNewLine(d: Doc, ls: seq<seq<Byte>>, col: nat, style: Byte)
    requires Shows(d, ls, col, style)
    ensures Shows(NewLine(d), ls + [[]], 0, style)
  {
    var e := NewLine(d);
    NewLineKeeps(d);
    hide Glyph;
    forall r, c | 0 <= r < e.lines && 0 <= c < e.width ensures At(e, r, c) == Glyph(style, CharAt(ls + [[]], r, c)) {
      NewLineAt(d, r, c);
      if r < d.lines { assert At(d, r, c) == Glyph(style, CharAt(ls, r, c)); }
    }
  }

  lemma ShowsReturn(d: Doc, ls: seq<seq<Byte>>, col: nat, style: Byte)
    requires Shows(d, ls, col, style)
    ensures Shows(Feed(d, 0x0D), ls, 0, style)
  {
    var e := Feed(d, 0x0D);
    forall r, c | 0 <= r < e.lines && 0 <= c < e.width ensures At(e, r, c) == Glyph(style, CharAt(ls, r, c)) {
      assert At(e, r, c) == At(d, r, c);
    }
  }

  lemma OverStep(line: seq<Byte>, col: nat, s: seq<Byte>)
    requires col <= |line| && s != []
    ensures var first := Over(line, col, [s[0]]);
      col + 1 <= |first| && Over(first, col + 1, s[1..]) == Over(line, col, s)
  {
  }

  /** Bytes that fit in the row are written over it, whatever they are. */
  lemma {:induction false} ShowsBytes(d: Doc, ls: seq<seq<Byte>>, col: nat, style: Byte, s: seq<Byte>)
    requires Shows(d, ls, col, style) && col + |s| <= d.width
    ensures Shows(WriteBytes(d, s), WithLast(ls, Over(LastOf(ls), col, s)), col + |s|, style)
    decreases |s|
  {
    hide Shows, WriteByte;
    ShowsInv(d, ls, col, style);
    if s == [] {
      assert Over(LastOf(ls), col, s) == LastOf(ls);
      assert WithLast(ls, LastOf(ls)) == ls;
    } else {
      var line := Over(LastOf(ls), col, [s[0]]);
      ShowsByte(d, ls, col, style, s[0]);
      WriteByteKeeps(d, s[0]);
      OverStep(LastOf(ls), col, s);
      var ls' := WithLast(ls, line);
      assert LastOf(ls') == line;
      ShowsBytes(WriteByte(d, s[0]), ls', col + 1, style, s[1..]);
      assert WithLast(ls', Over(line, col + 1, s[1..])) == WithLast(ls, Over(LastOf(ls), col, s));
    }
  }

  lemma ShowsInv(d: Doc, ls: seq<seq<Byte>>, col: nat, style: Byte)
    requires Shows(d, ls, col, style)
    ensures DocInv(d) && ls != [] && col <= |LastOf(ls)|
  {
  }

  lemma {:induction false} PlainText(d: Doc, s: seq<Byte>)
    requires DocInv(d) && NEWLINE !in s && RETURN !in s
    ensures WriteStr(d, s) == WriteBytes(d, s)
    decreases |s|
  {
    hide WriteByte;
    if s != [] {
      WriteByteKeeps(d, s[0]);
      PlainText(WriteByte(d, s[0]), s[1..]);
    }
  }

  lemma {:induction false} WriteStrAppend(d: Doc, a: seq<Byte>, b: seq<Byte>)
    requires DocInv(d)
    ensures WriteStr(d, a + b) == WriteStr(WriteStr(d, a), b)
    decreases |a|
  {
    hide Feed;
    if a == [] {
      assert a + b == b;
    } else {
      assert (a + b)[1..] == a[1..] + b;
      FeedKeeps(d, a[0]);
      WriteStrAppend(Feed(d, a[0]), a[1..], b);
    }
  }

  /** The lines of a text, with a newline between any two. */
  function Text(ls: seq<seq<Byte>>): seq<Byte>
    requires ls != []
  {
    if |ls| == 1 then ls[0] else Text(ls[..|ls| - 1]) + [0x0A] + LastOf(ls)
  }

  predicate Printable(ls: seq<seq<Byte>>, width: nat) {
    forall i :: 0 <= i < |ls| ==> |ls[i]| <= width && 0x0A !in ls[i] && 0x0D !in ls[i]
  }

  lemma ShowsLine(d: Doc, ls: seq<seq<Byte>>, style: Byte, line: seq<Byte>, col: nat)
    requires Shows(d, ls, col, style)
    requires |line| <= d.width && NEWLINE !in line && RETURN !in line
    ensures Shows(WriteStr(d, [0x0A] + line), ls + [line], |line|, style)
  {
    hide Shows, NewLine, WriteByte;
    ShowsInv(d, ls, col, style);
    ShowsNewLine(d, ls, col, style);
    NewLineKeeps(d);
    assert ([0x0A] + line)[1..] == line;
    assert Feed(d, 0x0A) == NewLine(d);
    var ls' := ls + [[]];
    WidthKept(d);
    ShowsBytes(NewLine(d), ls', 0, style, line);
    PlainText(NewLine(d), line);
    assert Over(LastOf(ls'), 0, line) == line;
    assert WithLast(ls', line) == ls + [line];
  }

  lemma WidthKept(d: Doc)
    ensures NewLine(d).width == d.width
  {
  }

  /** Every text whose lines fit the width is shown line by line, each in a row of its own
      and followed by blanks, however far it has scrolled. */
  lemma {:induction false} LinesAreShown(width: nat, height: nat, style: Byte, ls: seq<seq<Byte>>)
    requires 0 < width && 0 < height && ls != [] && Printable(ls, width)
    ensures Shows(WriteStr(Cleared(width, height, style), Text(ls)), ls, |LastOf(ls)|, style)
  {
    hide Shows;
    var d, line := Cleared(width, height, style), LastOf(ls);
    ClearedShows(width, height, style);
    ShowsInv(d, [[]], 0, style);
    if |ls| == 1 {
      ShowsBytes(d, [[]], 0, style, line);
      PlainText(d, line);
      assert Over([], 0, line) == line;
      assert WithLast([[]], line) == ls;
    } else {
      var front := ls[..|ls| - 1];
      LinesAreShown(width, height, style, front);
      ShowsLine(WriteStr(d, Text(front)), front, style, line, |LastOf(front)|);
      WriteStrAppend(d, Text(front), [0x0A] + line);
      assert Text(ls) == Text(front) + ([0x0A] + line);
      assert front + [line] == ls;
    }
  }

  lemma ClearedShows(width: nat, height: nat, style: Byte)
    requires 0 < width && 0 < height
    ensures Shows(Cleared(width, height, style), [[]], 0, style)
  {
    var d := Cleared(width, height, style);
    forall r, c | 0 <= r < d.lines && 0 <= c < d.width ensures At(d, r, c) == Glyph(style, CharAt([[]], r, c)) {
      CellInGrid(r, c, height, width);
    }
  }

  /** After a carriage return the last line is written over from its start. */
  lemma ReturnOverwrites(d: Doc, ls: seq<seq<Byte>>, col: nat, style: Byte, s: seq<Byte>)
    requires Shows(d, ls, col, style) && |s| <= d.width && NEWLINE !in s && RETURN !in s
    ensures var line := s + if |s| < |LastOf(ls)| then LastOf(ls)[|s|..] else [];
      Shows(WriteStr(d, [0x0D] + s), WithLast(ls, line), |s|, style)
  {
    hide Shows, WriteByte, WithLast, Over;
    ShowsInv(d, ls, col, style);
    ShowsReturn(d, ls, col, style);
    FeedKeeps(d, 0x0D);
    var e := Feed(d, 0x0D);
    ShowsBytes(e, ls, 0, style, s);
    PlainText(e, s);
    FeedFirst(d, 0x0D, s);
    OverStart(LastOf(ls), s);
  }

  lemma FeedFirst(d: Doc, b: Byte, s: seq<Byte>)
    requires DocInv(d)
    ensures DocInv(Feed(d, b)) && WriteStr(d, [b] + s) == WriteStr(Feed(d, b), s)
  {
    hide Feed;
    FeedKeeps(d, b);
    assert ([b] + s)[1..] == s;
  }

  lemma OverStart(line: seq<Byte>, s: seq<Byte>)
    ensures Over(line, 0, s) == s + if |s| < |line| then line[|s|..] else []
  {
    assert line[..0] + s == s;
  }

  /** A character that is no newline is shown as all of its bytes, a carriage return too. */
  lemma CharactersAreShown(d: Doc, ls: seq<seq<Byte>>, col: nat, style: Byte, encoded: seq<Byte>)
    requires Shows(d, ls, col, style) && encoded != [0x0A] && col + |encoded| <= d.width
    ensures Shows(WriteChar(d, encoded), WithLast(ls, Over(LastOf(ls), col, encoded)), col + |encoded|, style)
  {
    hide Shows, WriteBytes;
    ShowsInv(d, ls, col, style);
    ShowsBytes(d, ls, col, style, encoded);
  }

  // ---- the window ----

  lemma SamePlace(above: nat, r: nat, width: nat)
    ensures (above + r) * width == above * width + r * width
  {
  }

  /** Adding a blank row to the transcript is scrolling the window by one row. */
  lemma Scrolled(d: Doc, before: seq<Cell>)
    requires DocInv(d) && d.row + 1 == d.lines && 0 <= Top(d) <= |d.text| && before == d.text[Top(d)..]
    requires |before| == d.height * d.width
    ensures var e := NewLine(d);
      && d.width <= |before|
      && 0 <= Top(e) <= |e.text|
      && before[d.width..] + Blank(d.width, d.style) == e.text[Top(e)..]
  {
    AddRow(d.lines - d.height, d.width);
    MulMonotone(1, d.height, d.width);
  }
}
