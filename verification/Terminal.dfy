/** The text grid that a `TextArea` in Scroll mode shows: what its characters mean, without pixels. */
module Terminal {
  import BitMath
  import opened Common
  import opened Bitmap

  const NEWLINE: nat := 10
  const BACKSPACE: nat := 8
  const DELETE: nat := 0x7f

  datatype Cell = Blank | Glyph(c: nat, fg: u32, bg: u32)

  datatype Text = Text(cols: nat, rows: nat, grid: seq<seq<Cell>>, cx: nat, cy: nat) {
    ghost predicate Valid() {
      && |grid| == rows
      && (forall r :: 0 <= r < rows ==> |grid[r]| == cols)
      && cx < cols && cy < rows
    }
  }

  function BlankRow(cols: nat): (r: seq<Cell>)
    ensures |r| == cols && forall i :: 0 <= i < cols ==> r[i] == Blank
  {
    seq(cols, _ => Blank)
  }

  function EmptyText(cols: nat, rows: nat): (t: Text)
    requires cols > 0 && rows > 0
    ensures t.Valid() && t.cx == t.cy == 0 && t.cols == cols && t.rows == rows
    ensures forall r, i :: 0 <= r < rows && 0 <= i < cols ==> t.grid[r][i] == Blank
  {
    Text(cols, rows, seq(rows, _ => BlankRow(cols)), 0, 0)
  }

  /** Down a row, or everything up by one row when there is none below. */
  function NewLine(t: Text): (t': Text)
    requires t.Valid()
    ensures t'.Valid() && t'.cols == t.cols && t'.rows == t.rows && t'.cx == 0
  {
    if t.cy + 1 < t.rows then t.(cx := 0, cy := t.cy + 1)
    else t.(cx := 0, grid := t.grid[1..] + [BlankRow(t.cols)])
  }

  function Put(t: Text, cell: Cell): (t': Text)
    requires t.Valid()
    ensures t'.Valid() && t'.cols == t.cols && t'.rows == t.rows
  {
    t.(grid := t.grid[t.cy := t.grid[t.cy][t.cx := cell]])
  }

  function Next(t: Text): (t': Text)
    requires t.Valid()
    ensures t'.Valid() && t'.cols == t.cols && t'.rows == t.rows
  {
    if t.cx + 1 < t.cols then t.(cx := t.cx + 1) else NewLine(t)
  }

  function Back(t: Text): (t': Text)
    requires t.Valid()
    ensures t'.Valid() && t'.cols == t.cols && t'.rows == t.rows
  {
    t.(cx := if t.cx == 0 then 0 else t.cx - 1)
  }

  function PrintChar(t: Text, c: nat, fg: u32, bg: u32): (t': Text)
    requires t.Valid()
    ensures t'.Valid() && t'.cols == t.cols && t'.rows == t.rows
  {
    if c == NEWLINE then NewLine(t)
    else if c == BACKSPACE || c == DELETE then Back(t)
    else Next(Put(t, Glyph(c, fg, bg)))
  }

  function PrintString(t: Text, s: seq<nat>, fg: u32, bg: u32): (t': Text)
    requires t.Valid()
    ensures t'.Valid() && t'.cols == t.cols && t'.rows == t.rows
    decreases |s|
  {
    if s == [] then t else PrintString(PrintChar(t, s[0], fg, bg), s[1..], fg, bg)
  }

  /** Printing `c` needs a row below the last one. */
  predicate Scrolls(t: Text, c: nat)
    requires t.Valid()
  {
    t.cy + 1 == t.rows && (c == NEWLINE || (c != BACKSPACE && c != DELETE && t.cx + 1 == t.cols))
  }

  predicate NeverScrolls(t: Text, s: seq<nat>, fg: u32, bg: u32)
    requires t.Valid()
    decreases |s|
  {
    s == [] || (!Scrolls(t, s[0]) && NeverScrolls(PrintChar(t, s[0], fg, bg), s[1..], fg, bg))
  }

  /** The colour of the dot `(i, j)` of the area. */
  function Render(font: Font, t: Text, i: nat, j: nat): u32
    requires t.Valid()
  {
    if i / 8 < t.cols && j / 16 < t.rows then
      match t.grid[j / 16][i / 8]
      case Blank => 0
      case Glyph(c, fg, bg) => if Lit(font, c, i % 8, j % 16) then fg else bg
    else 0
  }

  /** Scrolling the text is moving all rows of dots up by 16 and blanking the last text row. */
  lemma RenderScrolled(font: Font, t: Text, i: nat, j: nat)
    requires t.Valid() && t.cy + 1 == t.rows
    ensures Render(font, NewLine(t), i, j) ==
            if j < t.cy * 16 then Render(font, t, i, j + 16) else 0
  {
    var t' := NewLine(t);
    if i / 8 < t.cols && j / 16 < t.rows {
      if j < t.cy * 16 {
        assert (j + 16) / 16 == j / 16 + 1 && (j + 16) % 16 == j % 16;
        assert t'.grid[j / 16] == t.grid[j / 16 + 1];
      } else {
        assert j / 16 == t.cy;
        assert t'.grid[t.cy] == BlankRow(t.cols);
      }
    } else if j < t.cy * 16 {
      assert (j + 16) / 16 == j / 16 + 1;
    }
  }

  /** Putting a glyph changes the dots of its cell only. */
  lemma RenderPut(font: Font, t: Text, c: nat, fg: u32, bg: u32, i: nat, j: nat)
    requires t.Valid()
    ensures Render(font, Put(t, Glyph(c, fg, bg)), i, j) ==
            if InRect(i, j, t.cx * 8, t.cy * 16, 8, 16) then Dot(font, fg, Some(bg), c, i - t.cx * 8, j - t.cy * 16, 0)
            else Render(font, t, i, j)
  {
    assert InRect(i, j, t.cx * 8, t.cy * 16, 8, 16) <==> i / 8 == t.cx && j / 16 == t.cy;
    if i / 8 == t.cx && j / 16 == t.cy {
      assert i % 8 == i - t.cx * 8 && j % 16 == j - t.cy * 16;
    }
  }

  /** Where the dots of a cell are and what they show: a blank is black, a glyph has the foreground where
      the font has a dot, and everywhere for a character that the font does not have. */
  lemma RenderCell(font: Font, t: Text, r: nat, k: nat, i: nat, j: nat)
    requires t.Valid() && r < t.rows && k < t.cols && i < 8 && j < 16
    ensures Render(font, t, k * 8 + i, r * 16 + j) ==
            match t.grid[r][k]
            case Blank => 0
            case Glyph(c, fg, bg) => if c >= 256 || font(c, i, j) then fg else bg
  {
    BitMath.DivModUnique(k * 8 + i, 8, k, i);
    BitMath.DivModUnique(r * 16 + j, 16, r, j);
  }

  //
  // What the characters mean
  //

  /** Neither line feed nor backspace nor delete. */
  predicate Printable(c: nat) {
    c != 10 && c != 8 && c != 127
  }

  /** A line feed goes to the start of the next row; on the last row every row moves up by one and a blank
      one comes in. */
  lemma LineFeed(t: Text, fg: u32, bg: u32)
    requires t.Valid()
    ensures var t' := PrintChar(t, 10, fg, bg);
            && t'.cx == 0
            && (t.cy + 1 < t.rows ==> t'.cy == t.cy + 1 && t'.grid == t.grid)
            && (t.cy + 1 == t.rows ==>
                  && t'.cy == t.cy
                  && forall r, k :: 0 <= r < t.rows && 0 <= k < t.cols ==>
                       t'.grid[r][k] == if r + 1 < t.rows then t.grid[r + 1][k] else Blank)
  {
  }

  /** Backspace and delete go back one column, not beyond the first, and erase nothing. */
  lemma StepBack(t: Text, fg: u32, bg: u32)
    requires t.Valid()
    ensures PrintChar(t, 8, fg, bg) == PrintChar(t, 127, fg, bg) == t.(cx := if t.cx == 0 then 0 else t.cx - 1)
  {
  }

  /** Text within a row appears from the cursor on, character by character, and nothing else changes. */
  lemma {:induction false} PlainText(t: Text, s: seq<nat>, fg: u32, bg: u32)
    requires t.Valid() && t.cx + |s| < t.cols && forall k :: 0 <= k < |s| ==> Printable(s[k])
    ensures var t' := PrintString(t, s, fg, bg);
            && t'.cx == t.cx + |s| && t'.cy == t.cy
            && forall r, k :: 0 <= r < t.rows && 0 <= k < t.cols ==>
                 t'.grid[r][k] == if r == t.cy && t.cx <= k < t.cx + |s| then Glyph(s[k - t.cx], fg, bg) else t.grid[r][k]
    decreases |s|
  {
    if s != [] {
      assert Printable(s[0]);
      var t1 := PrintChar(t, s[0], fg, bg);
      PlainText(t1, s[1..], fg, bg);
    }
  }

  /** A character in the last column is put there, and the cursor goes on as for a line feed. */
  lemma LastColumn(t: Text, c: nat, fg: u32, bg: u32)
    requires t.Valid() && t.cx + 1 == t.cols && Printable(c)
    ensures PrintChar(t, c, fg, bg) == PrintChar(t.(grid := t.grid[t.cy := t.grid[t.cy][t.cx := Glyph(c, fg, bg)]]), 10, fg, bg)
  {
  }

  /** A character corrected by backspace is as if it had never been typed. */
  lemma Corrected(t: Text, c: nat, d: nat, fg: u32, bg: u32)
    requires t.Valid() && t.cx + 1 < t.cols && Printable(c) && Printable(d)
    ensures PrintString(t, [c, 8, d], fg, bg) == PrintString(t, [d], fg, bg)
  {
    var t1 := PrintChar(t, c, fg, bg);
    var t2 := PrintChar(t1, 8, fg, bg);
    assert [c, 8, d][1..] == [8, d] && [8, d][1..] == [d] && [d][1..] == [];
    assert PrintString(t2, [d], fg, bg) == PrintChar(t2, d, fg, bg);
    assert PrintString(t, [d], fg, bg) == PrintChar(t, d, fg, bg);
    var row := t.grid[t.cy];
    assert row[t.cx := Glyph(c, fg, bg)][t.cx := Glyph(d, fg, bg)] == row[t.cx := Glyph(d, fg, bg)];
    assert Put(t2, Glyph(d, fg, bg)).grid == Put(t, Glyph(d, fg, bg)).grid;
  }
}
