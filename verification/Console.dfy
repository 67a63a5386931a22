/** The VGA text console: `Console` and the video memory, as a window of height rows of
    width cells that scrolls over the transcript. */
module Console {
  import opened Bytes
  import opened RingArithmetic
  import opened Transcript
  import T = Transcript

  /** `Console` and the video memory behind it. */
  class Screen {
    const width: nat
    const height: nat
    const cells: array<Cell>
    var col: nat
    var row: nat
    var style: Byte
    ghost var doc: Doc

    /** The screen shows the last `height` rows of the transcript, cursor included. */
    ghost predicate Valid()
      reads this, cells
    {
      && DocInv(doc) && doc.width == width && doc.height == height
      && 0 <= Top(doc) <= |doc.text| && cells[..] == doc.text[Top(doc)..]
      && row == doc.row - (doc.lines - doc.height) && col == doc.col && style == doc.style
    }

    /** Before anything is written the screen shows whatever the memory holds. */
    constructor (width: nat, height: nat)
      requires 0 < width && 0 < height
      ensures fresh(cells) && Valid() && this.width == width && this.height == height
    {
      this.width, this.height := width, height;
      cells := new Cell[height * width];
      col, row, style := 0, 0, DEFAULT_STYLE;
      new;
      doc := Doc(width, height, cells[..], height, 0, 0, DEFAULT_STYLE);
      assert 0 * width == 0;
    }

    /** Row and column stay on screen and every cell address is inside the memory. */
    lemma CursorOnScreen()
      requires Valid()
      ensures 0 < width && row < height && col <= width && cells.Length == height * width
      ensures col < width ==> row * width + col < cells.Length
    {
      TopBound(doc);
      if col < width { CellInGrid(row, col, height, width); }
    }

    method Clear()
      requires Valid()
      modifies this, cells
      ensures Valid() && doc == Cleared(width, height, old(style))
    {
      hide Valid, Glyph;
      CursorOnScreen();
      FillBlank();
      col, row := 0, 0;
      doc := Cleared(width, height, style);
      Shown();
    }

    /** The nested loops of a clear. */
    method FillBlank()
      requires cells.Length == height * width
      modifies cells
      ensures forall i :: 0 <= i < height * width ==> cells[i] == Glyph(style, SPACE)
    {
      hide Glyph;
      for r := 0 to height
        invariant forall i :: 0 <= i < r * width ==> cells[i] == Glyph(style, SPACE)
      {
        AddRow(r, width);
        MulMonotone(r + 1, height, width);
        ClearRow(r * width);
      }
    }

    /** The inner loop: one row of blanks, the rest untouched. */
    method ClearRow(from: nat)
      requires from + width <= cells.Length
      modifies cells
      ensures forall i :: from <= i < from + width ==> cells[i] == Glyph(style, SPACE)
      ensures forall i :: 0 <= i < cells.Length && !(from <= i < from + width) ==> cells[i] == old(cells[i])
    {
      for c := 0 to width
        invariant forall i :: from <= i < from + c ==> cells[i] == Glyph(style, SPACE)
        invariant forall i :: 0 <= i < cells.Length && !(from <= i < from + c) ==> cells[i] == old(cells[i])
      {
        cells[from + c] := Glyph(style, SPACE);
      }
    }

    /** Re-establishes validity after a clear. */
    lemma Shown()
      requires 0 < width && 0 < height && cells.Length == height * width
      requires col == 0 && row == 0 && doc == Cleared(width, height, style)
      requires forall i :: 0 <= i < height * width ==> cells[i] == Glyph(style, SPACE)
      ensures Valid()
    {
      assert (height - height) * width == 0;
      assert cells[..] == doc.text;
    }

    /** One cell is written on screen and in the transcript. */
    method WriteEntry(b: Byte, r: nat, c: nat)
      requires Valid() && r < height && c < width
      requires doc.row - (doc.lines - doc.height) == r && doc.col == c
      modifies cells, this`doc
      ensures Valid() && doc == Put(old(doc), b)
      ensures r * width + c < cells.Length && cells[..] == old(cells[..])[r * width + c := Glyph(style, b)]
    {
      TopBound(doc);
      PlaceInText(doc);
      CellInGrid(r, c, height, width);
      SamePlace(doc.lines - doc.height, r, width);
      cells[r * width + c] := Glyph(style, b);
      doc := Put(doc, b);
    }

    method NewLine()
      requires Valid()
      modifies this, cells
      ensures Valid() && doc == T.NewLine(old(doc))
    {
      CursorOnScreen();
      NewLineKeeps(doc);
      if row < height - 1 {
        col := 0;
        row := row + 1;
        doc := T.NewLine(doc);
        return;
      }
      ghost var before := cells[..];
      ScrollUp();
      Scrolled(doc, before);
      col := 0;
      doc := T.NewLine(doc);
    }

    /** Every row moves up by exactly one and a blank one appears at the bottom. */
    method ScrollUp()
      requires 0 < width && 0 < height && cells.Length == height * width
      modifies cells
      ensures width <= |old(cells[..])|
      ensures cells[..] == old(cells[..])[width..] + Blank(width, style)
    {
      ghost var before := cells[..];
      AddRow(height - 1, width);
      for r := 1 to height
        invariant forall i :: 0 <= i < (r - 1) * width ==> cells[i] == before[i + width]
        invariant forall i :: (r - 1) * width <= i < cells.Length ==> cells[i] == before[i]
      {
        MulMonotone(r + 1, height, width);
        AddRow(r, width);
        AddRow(r - 1, width);
        CopyRowUp((r - 1) * width);
      }
      ClearRow((height - 1) * width);
    }

    /** The inner loop: the row behind `to` is copied to it, cell by cell. */
    method CopyRowUp(to: nat)
      requires to + 2 * width <= cells.Length
      modifies cells
      ensures forall i :: to <= i < to + width ==> cells[i] == old(cells[i + width])
      ensures forall i :: 0 <= i < cells.Length && !(to <= i < to + width) ==> cells[i] == old(cells[i])
    {
      for c := 0 to width
        invariant forall i :: to <= i < to + c ==> cells[i] == old(cells[i + width])
        invariant forall i :: 0 <= i < cells.Length && !(to <= i < to + c) ==> cells[i] == old(cells[i])
      {
        var entry := cells[to + width + c];
        cells[to + c] := Glyph(entry / 0x100, entry % 0x100);
      }
    }

    method WriteByte(b: Byte)
      requires Valid()
      modifies this, cells
      ensures Valid() && doc == T.WriteByte(old(doc), b)
    {
      NewLineKeeps(doc);
      if col >= width { NewLine(); }
      WriteEntry(b, row, col);
      StepRight();
    }

    method StepRight()
      requires Valid() && col < width
      modifies this`col, this`doc
      ensures Valid() && doc == old(doc).(col := old(doc).col + 1)
    {
      col := col + 1;
      doc := doc.(col := doc.col + 1);
    }

    /** In the top left corner nothing happens; anywhere else the cell before the cursor
        becomes a blank of the current style and the cursor goes there. */
    method Backspace()
      requires Valid()
      modifies this, cells
      ensures Valid() && doc == T.Backspace(old(doc)) && style == old(style)
      ensures old(row == 0 && col == 0) ==> cells[..] == old(cells[..]) && row == 0 && col == 0
      ensures !old(row == 0 && col == 0) ==>
        && 0 < old(row * width + col) <= cells.Length && col < width
        && row * width + col == old(row * width + col) - 1
        && cells[..] == old(cells[..])[old(row * width + col) - 1 := Glyph(style, 0x20)]
    {
      hide Glyph, Put;
      CursorOnScreen();
      if col > 0 {
        col := col - 1;
        doc := doc.(col := doc.col - 1);
        WriteEntry(SPACE, row, col);
      } else if row > 0 {
        AddRow(row - 1, width);
        row := row - 1;
        col := width - 1;
        doc := doc.(row := doc.row - 1, col := width - 1);
        WriteEntry(SPACE, row, col);
      }
    }

    method WriteStr(message: seq<Byte>)
      requires Valid()
      modifies this, cells
      ensures Valid() && doc == T.WriteStr(old(doc), message)
    {
      for k := 0 to |message|
        invariant Valid()
        invariant T.WriteStr(doc, message[k..]) == T.WriteStr(old(doc), message)
      {
        var b := message[k];
        assert message[k..][1..] == message[k + 1..];
        if b == NEWLINE { NewLine(); }
        else if b == RETURN { col := 0; doc := doc.(col := 0); }
        else { WriteByte(b); }
      }
    }

    method WriteChar(encoded: seq<Byte>)
      requires Valid()
      modifies this, cells
      ensures Valid() && doc == T.WriteChar(old(doc), encoded)
    {
      if encoded == [NEWLINE] {
        NewLine();
      } else {
        for k := 0 to |encoded|
          invariant Valid()
          invariant WriteBytes(doc, encoded[k..]) == WriteBytes(old(doc), encoded)
        {
          assert encoded[k..][1..] == encoded[k + 1..];
          WriteByte(encoded[k]);
        }
      }
    }

    method SetStyle(style: Byte)
      requires Valid()
      modifies this`style, this`doc
      ensures Valid() && doc == old(doc).(style := style)
    {
      this.style := style;
      doc := doc.(style := style);
    }

    /** From a clear on, whatever is done to the screen, it shows the window on the
        transcript of the operations. */
    method Replay(ops: seq<Op>)
      requires Valid()
      modifies this, cells
      ensures Valid() && doc == ApplyAll(Cleared(width, height, old(style)), ops)
    {
      Clear();
      ghost var d := doc;
      for k := 0 to |ops|
        invariant Valid()
        invariant ApplyAll(doc, ops[k..]) == ApplyAll(d, ops)
      {
        assert ops[k..][1..] == ops[k + 1..];
        match ops[k]
        case Str(s) => WriteStr(s);
        case Char(e) => WriteChar(e);
        case Line => NewLine();
        case Erase => Backspace();
        case Style(st) => SetStyle(st);
      }
    }
  }
}
