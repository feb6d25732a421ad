/** `TextArea` of noli/src/text_area.rs in Scroll mode, drawing into a bitmap. */
module TextArea {
  import opened Common
  import opened Bitmap
  import opened Terminal

  class TextArea {
    const buf: Buffer
    const font: Font
    const x: int
    const y: int
    const w: int
    const h: int
    var cx: int
    var cy: int
    ghost var text: Text

    /** The area lies in the bitmap and has room for a character. */
    ghost predicate AreaOk() {
      buf.Valid() && buf.RectInRange(x, y, w, h) && w >= 8 && h >= 16
    }

    /** The grid has the size of the area and the cursor its row; its column may be one too far. */
    ghost predicate RowOk()
      reads this
    {
      text.Valid() && text.cols == w / 8 && text.rows == h / 16 && text.cy == cy
    }

    ghost predicate TextOk()
      reads this
    {
      RowOk() && text.cx == cx
    }

    /** Every pixel of the area is what the text grid says. */
    ghost predicate Shows()
      requires AreaOk() && RowOk()
      reads this, buf, buf.buf
    {
      forall px, py :: InRect(px, py, x, y, w, h) && buf.InBuffer(px, py) ==> buf.Pixel(px, py) == Render(font, text, px - x, py - y)
    }

    ghost predicate Valid()
      reads this, buf, buf.buf
    {
      AreaOk() && TextOk() && Shows()
    }

    /** No pixel outside the area has changed. */
    twostate predicate OutsideSame()
      requires AreaOk()
      reads this, buf, buf.buf
    {
      forall px, py :: buf.InBuffer(px, py) && !InRect(px, py, x, y, w, h) ==> buf.Pixel(px, py) == old(buf.Pixel(px, py))
    }

    constructor (buf: Buffer, font: Font, x: int, y: int, w: int, h: int)
      requires buf.Valid() && buf.RectInRange(x, y, w, h)
      modifies buf.buf
      ensures this.buf == buf && this.font == font && this.x == x && this.y == y && this.w == w && this.h == h
      ensures forall px, py :: buf.InBuffer(px, py) && InRect(px, py, x, y, w, h) ==> buf.Pixel(px, py) == 0
      ensures w >= 8 && h >= 16 ==> Valid() && text == EmptyText(w / 8, h / 16)
      ensures forall px, py :: buf.InBuffer(px, py) && !InRect(px, py, x, y, w, h) ==> buf.Pixel(px, py) == old(buf.Pixel(px, py))
    {
      this.buf, this.font, this.x, this.y, this.w, this.h := buf, font, x, y, w, h;
      cx, cy := 0, 0;
      text := if w >= 8 && h >= 16 then EmptyText(w / 8, h / 16) else EmptyText(1, 1);
      new;
      var ok := buf.DrawRect(0, x, y, w, h);
    }

    /** An area of a single row can only be scrolled if it touches neither edge: the empty move of its
        other rows is range-checked all the same. */
    ghost predicate CanScroll() {
      h >= 32 || (y > 0 && y + 16 < buf.height)
    }

    method NewLine() returns (ok: bool)
      requires AreaOk() && RowOk() && Shows()
      modifies this, buf.buf
      ensures Valid() && OutsideSame()
      ensures ok <==> old(text).cy + 1 < old(text).rows || CanScroll()
      ensures text == if ok then Terminal.NewLine(old(text)) else old(text).(cx := 0)
    {
      ghost var t := text;
      text := t.(cx := 0);
      cx := 0;
      cy := cy + 1;
      if (cy + 1) * 16 <= h {
        text := Terminal.NewLine(t);
        return true;
      }
      cy := cy - 1;
      ok := MoveRowsUp();
      if ok {
        text := Terminal.NewLine(t);
        ScrolledShows(t);
      }
    }

    /** All rows but the first move up by one, and the last becomes black. */
    method MoveRowsUp() returns (ok: bool)
      requires AreaOk() && cy + 1 == h / 16
      modifies buf.buf
      ensures ok <==> CanScroll()
      ensures OutsideSame()
      ensures forall px, py :: InRect(px, py, x, y, w, h) && buf.InBuffer(px, py) ==>
                buf.Pixel(px, py) == if ok && py - y < cy * 16 then old(buf.Pixel(px, py + 16))
                                     else if ok && py - y < cy * 16 + 16 then 0 else old(buf.Pixel(px, py))
    {
      ok := buf.TransferRect(x, y, x, y + 16, w, cy * 16);
      if ok {
        ok := buf.DrawRect(0, x, y + cy * 16, w, 16);
      }
    }

    /** The pixels after a scroll are those of the scrolled text. */
    twostate lemma ScrolledShows(t: Text)
      requires AreaOk() && RowOk() && t.Valid() && t.cols == w / 8 && t.rows == h / 16 && t.cy + 1 == t.rows
      requires text == Terminal.NewLine(t)
      requires forall px, py :: InRect(px, py, x, y, w, h) && buf.InBuffer(px, py) ==> old(buf.Pixel(px, py)) == Render(font, t, px - x, py - y)
      requires forall px, py :: InRect(px, py, x, y, w, h) && buf.InBuffer(px, py) ==>
                 buf.Pixel(px, py) == if py - y < t.cy * 16 then old(buf.Pixel(px, py + 16))
                                      else if py - y < t.cy * 16 + 16 then 0 else old(buf.Pixel(px, py))
      ensures Shows()
    {
      forall px, py | InRect(px, py, x, y, w, h) && buf.InBuffer(px, py)
        ensures buf.Pixel(px, py) == Render(font, text, px - x, py - y)
      {
        RenderScrolled(font, t, px - x, py - y);
        if py - y < t.cy * 16 {
          assert InRect(px, py + 16, x, y, w, h) && buf.InBuffer(px, py + 16);
        }
      }
    }

    method MoveCursorNext() returns (ok: bool)
      requires Valid()
      modifies this, buf.buf
      ensures Valid() && OutsideSame()
      ensures ok <==> CanScroll() || old(text.cy + 1 < text.rows || text.cx + 1 < text.cols)
      ensures ok ==> text == Next(old(text))
    {
      cx := cx + 1;
      if cx * 8 + 8 <= w {
        text := text.(cx := text.cx + 1);
        return true;
      }
      ok := NewLine();
    }

    method MoveCursorPrev()
      requires Valid()
      modifies this
      ensures Valid() && text == Back(old(text))
    {
      cx := if cx - 1 > 0 then cx - 1 else 0;
      text := Back(text);
    }

    method PrintChar(c: nat, fg: u32, bg: u32) returns (ok: bool)
      requires Valid()
      modifies this, buf.buf
      ensures Valid() && OutsideSame()
      ensures ok <==> CanScroll() || !Scrolls(old(text), c)
      ensures ok ==> text == Terminal.PrintChar(old(text), c, fg, bg)
    {
      if c == NEWLINE {
        ok := NewLine();
      } else if c == BACKSPACE || c == DELETE {
        MoveCursorPrev();
        ok := true;
      } else {
        DrawGlyph(c, fg, bg);
        ok := MoveCursorNext();
      }
    }

    method DrawGlyph(c: nat, fg: u32, bg: u32)
      requires Valid()
      modifies this`text, buf.buf
      ensures Valid() && OutsideSame()
      ensures text == Put(old(text), Glyph(c, fg, bg))
    {
      ghost var t := text;
      var drawn := buf.DrawChar(font, fg, Some(bg), x + cx * 8, y + cy * 16, c);
      assert drawn;
      text := Put(t, Glyph(c, fg, bg));
      forall px, py | InRect(px, py, x, y, w, h) && buf.InBuffer(px, py)
        ensures buf.Pixel(px, py) == Render(font, text, px - x, py - y)
      {
        RenderPut(font, t, c, fg, bg, px - x, py - y);
      }
    }

    /** Printing shows the text grid after the whole string, and touches nothing outside the area. It
        fails exactly when the area has to be scrolled and cannot be. */
    method PrintString(s: seq<nat>, fg: u32, bg: u32) returns (ok: bool)
      requires Valid()
      modifies this, buf.buf
      ensures Valid() && OutsideSame()
      ensures ok <==> CanScroll() || NeverScrolls(old(text), s, fg, bg)
      ensures ok ==> text == Terminal.PrintString(old(text), s, fg, bg)
    {
      ghost var t := text;
      var i := 0;
      while i < |s|
        invariant 0 <= i <= |s| && Valid() && OutsideSame()
        invariant Terminal.PrintString(t, s, fg, bg) == Terminal.PrintString(text, s[i..], fg, bg)
        invariant !CanScroll() ==> NeverScrolls(t, s, fg, bg) == NeverScrolls(text, s[i..], fg, bg)
      {
        assert s[i..][1..] == s[i + 1..];
        ok := PrintChar(s[i], fg, bg);
        if !ok {
          return;
        }
        i := i + 1;
      }
      ok := true;
    }
  }
}
