/** Pixel buffers: the `Bitmap` trait and drawing functions of noli/src/bitmap.rs. */
module Bitmap {
  import opened Common

  /** A font: whether the glyph of a character code below 256 has a dot at column, row. */
  type Font = (nat, nat, nat) -> bool

  predicate Lit(font: Font, c: nat, i: nat, j: nat) {
    c >= 256 || font(c, i, j)
  }

  /** Pixel `(x, y)` lies at `y * perLine + x`; different pixels lie at different places. */
  lemma IndexInjective(perLine: nat, x: int, y: int, x': int, y': int)
    requires 0 <= x < perLine && 0 <= x' < perLine && 0 <= y && 0 <= y'
    requires y * perLine + x == y' * perLine + x'
    ensures x == x' && y == y'
  {
    assert y < y' ==> y' * perLine >= (y + 1) * perLine;
    assert y' < y ==> y * perLine >= (y' + 1) * perLine;
  }

  lemma IndexInBounds(perLine: nat, height: nat, x: int, y: int)
    requires 0 <= x < perLine && 0 <= y < height
    ensures 0 <= y * perLine + x < perLine * height
  {
    assert (y + 1) * perLine <= height * perLine;
  }

  /** For a column inside a line, the place of a pixel is in the buffer exactly if its row is. */
  lemma PlaceInBuffer(perLine: nat, height: nat, x: int, y: int)
    requires 0 <= x < perLine
    ensures 0 <= y * perLine + x < perLine * height <==> 0 <= y < height
  {
    if 0 <= y < height {
      IndexInBounds(perLine, height, x, y);
    } else if y < 0 {
      assert y * perLine <= -1 * perLine;
    } else {
      assert y * perLine >= height * perLine;
    }
  }

  /** How `bitmap_draw_point` ends: with the pixel set, with an error, or with a write through a
      pointer outside the buffer. */
  datatype Drawn = Set | OutOfRange | OutsideBuffer

  class Buffer {
    const width: int
    const height: nat
    const pixelsPerLine: nat
    const buf: array<u32>

    constructor (width: nat, height: nat, pixelsPerLine: nat)
      requires pixelsPerLine >= width
      ensures Valid() && this.width == width && this.height == height && this.pixelsPerLine == pixelsPerLine && fresh(buf)
      ensures forall x, y :: InBuffer(x, y) ==> Pixel(x, y) == 0
    {
      this.width, this.height, this.pixelsPerLine := width, height, pixelsPerLine;
      buf := new u32[pixelsPerLine * height](_ => 0);
      new;
      forall x, y | InBuffer(x, y) ensures Pixel(x, y) == 0 {
        IndexInBounds(pixelsPerLine, height, x, y);
      }
    }

    predicate Valid() {
      buf.Length == pixelsPerLine * height
    }

    predicate InBuffer(x: int, y: int) {
      0 <= x < pixelsPerLine && 0 <= y < height
    }

    predicate IsInXRange(px: int) {
      0 <= px < if width < pixelsPerLine then width else pixelsPerLine
    }

    predicate IsInYRange(py: int) {
      0 <= py < height
    }

    function Pixel(x: int, y: int): u32
      requires Valid() && InBuffer(x, y)
      reads buf
    {
      IndexInBounds(pixelsPerLine, height, x, y);
      buf[y * pixelsPerLine + x]
    }

    /** `unchecked_draw_point` */
    method SetPixel(x: int, y: int, color: u32)
      requires Valid() && InBuffer(x, y)
      modifies buf
      ensures forall px, py :: InBuffer(px, py) ==> Pixel(px, py) == if px == x && py == y then color else old(Pixel(px, py))
      ensures forall k :: 0 <= k < buf.Length ==> buf[k] == if k == y * pixelsPerLine + x then color else old(buf[k])
    {
      IndexInBounds(pixelsPerLine, height, x, y);
      buf[y * pixelsPerLine + x] := color;
      forall px, py | InBuffer(px, py) && !(px == x && py == y)
        ensures Pixel(px, py) == old(Pixel(px, py))
      {
        if py * pixelsPerLine + px == y * pixelsPerLine + x {
          IndexInjective(pixelsPerLine, px, py, x, y);
        }
        IndexInBounds(pixelsPerLine, height, px, py);
      }
    }

    /** `bitmap_draw_point` tests the column twice and the row never: it leaves the buffer exactly on
        a row out of range in a column that is in range. */
    method DrawPoint(color: u32, x: int, y: int) returns (r: Drawn)
      requires Valid()
      modifies buf
      ensures r.OutOfRange? <==> x < 0 || x >= width || x >= pixelsPerLine
      ensures r.OutsideBuffer? <==> 0 <= x < width && x < pixelsPerLine && (y < 0 || y >= height)
      ensures forall px, py :: InBuffer(px, py) ==> Pixel(px, py) == if r.Set? && px == x && py == y then color else old(Pixel(px, py))
    {
      if !IsInXRange(x) || !IsInXRange(x) {
        return OutOfRange;
      }
      PlaceInBuffer(pixelsPerLine, height, x, y);
      var place := y * pixelsPerLine + x;
      if !(0 <= place < buf.Length) {
        return OutsideBuffer;
      }
      SetPixel(x, y, color);
      r := Set;
    }

    predicate RectInRange(x: int, y: int, w: int, h: int) {
      IsInXRange(x) && IsInYRange(y) && IsInXRange(x + w - 1) && IsInYRange(y + h - 1)
    }

    method DrawRect(color: u32, px: int, py: int, w: int, h: int) returns (ok: bool)
      requires Valid()
      modifies buf
      ensures ok <==> RectInRange(px, py, w, h)
      ensures forall x, y :: InBuffer(x, y) ==> Pixel(x, y) == if ok && InRect(x, y, px, py, w, h) then color else old(Pixel(x, y))
    {
      if !IsInXRange(px) || !IsInYRange(py) || !IsInXRange(px + w - 1) || !IsInYRange(py + h - 1) {
        return false;
      }
      var y := py;
      while y < py + h
        invariant py <= y && (y == py || y <= py + h)
        invariant forall x, y' :: InBuffer(x, y') ==> Pixel(x, y') == if InRect(x, y', px, py, w, y - py) then color else old(Pixel(x, y'))
      {
        FillRow(color, px, y, w);
        y := y + 1;
      }
      ok := true;
    }

    method FillRow(color: u32, px: int, y: int, w: int)
      requires Valid() && IsInXRange(px) && IsInXRange(px + w - 1) && IsInYRange(y)
      modifies buf
      ensures forall x, y' :: InBuffer(x, y') ==> Pixel(x, y') == if InRect(x, y', px, y, w, 1) then color else old(Pixel(x, y'))
    {
      var x := px;
      while x < px + w
        invariant px <= x && (x == px || x <= px + w)
        invariant forall x', y' :: InBuffer(x', y') ==> Pixel(x', y') == if InRect(x', y', px, y, x - px, 1) then color else old(Pixel(x', y'))
      {
        var drawn := DrawPoint(color, x, y);
        assert drawn.Set?;
        x := x + 1;
      }
    }

    /** `bitmap_draw_char` */
    method DrawChar(font: Font, fg: u32, bg: Option<u32>, px: int, py: int, c: nat) returns (ok: bool)
      requires Valid()
      modifies buf
      ensures ok <==> RectInRange(px, py, 8, 16)
      ensures forall x, y :: InBuffer(x, y) ==>
                Pixel(x, y) == if !(ok && px <= x < px + 8 && py <= y < py + 16) then old(Pixel(x, y))
                               else if c >= 256 || font(c, x - px, y - py) then fg
                               else if bg.Some? then bg.value else old(Pixel(x, y))
    {
      if !IsInXRange(px) || !IsInYRange(py) || !IsInXRange(px + 8 - 1) || !IsInYRange(py + 16 - 1) {
        return false;
      }
      for y := 0 to 16
        invariant forall x', y' :: InBuffer(x', y') ==>
                    Pixel(x', y') == if InRect(x', y', px, py, 8, y) then Dot(font, fg, bg, c, x' - px, y' - py, old(Pixel(x', y'))) else old(Pixel(x', y'))
      {
        DrawCharRow(font, fg, bg, px, py, c, y);
      }
      ok := true;
    }

    method DrawCharRow(font: Font, fg: u32, bg: Option<u32>, px: int, py: int, c: nat, y: nat)
      requires Valid() && RectInRange(px, py, 8, 16) && y < 16
      modifies buf
      ensures forall x', y' :: InBuffer(x', y') ==>
                Pixel(x', y') == if InRect(x', y', px, py + y, 8, 1) then Dot(font, fg, bg, c, x' - px, y, old(Pixel(x', y'))) else old(Pixel(x', y'))
    {
      for x := 0 to 8
        invariant forall x', y' :: InBuffer(x', y') ==>
                    Pixel(x', y') == if InRect(x', y', px, py + y, x, 1) then Dot(font, fg, bg, c, x' - px, y, old(Pixel(x', y'))) else old(Pixel(x', y'))
      {
        if Lit(font, c, x, y) {
          var drawn := DrawPoint(fg, px + x, py + y);
          assert drawn.Set?;
        } else if bg.Some? {
          var drawn := DrawPoint(bg.value, px + x, py + y);
          assert drawn.Set?;
        }
      }
    }

    //
    // Moving a rectangle
    //

    method CopyRowForward(dx: int, dy: int, sx: int, sy: int, w: int)
      requires Valid() && IsInYRange(dy) && IsInYRange(sy)
      requires IsInXRange(dx) && IsInXRange(dx + w - 1) && IsInXRange(sx) && IsInXRange(sx + w - 1)
      requires dy != sy || dx <= sx
      modifies buf
      ensures forall x, y :: InBuffer(x, y) ==>
                Pixel(x, y) == if InRect(x, y, dx, dy, w, 1) then old(Pixel(x - dx + sx, sy)) else old(Pixel(x, y))
    {
      var i := 0;
      while i < w
        invariant 0 <= i && (i == 0 || i <= w)
        invariant forall x, y :: InBuffer(x, y) ==>
                    Pixel(x, y) == if InRect(x, y, dx, dy, i, 1) then old(Pixel(x - dx + sx, sy)) else old(Pixel(x, y))
      {
        SetPixel(dx + i, dy, Pixel(sx + i, sy));
        i := i + 1;
      }
    }

    method CopyRowBackward(dx: int, dy: int, sx: int, sy: int, w: int)
      requires Valid() && IsInYRange(dy) && IsInYRange(sy)
      requires IsInXRange(dx) && IsInXRange(dx + w - 1) && IsInXRange(sx) && IsInXRange(sx + w - 1)
      requires dy != sy || dx >= sx
      modifies buf
      ensures forall x, y :: InBuffer(x, y) ==>
                Pixel(x, y) == if InRect(x, y, dx, dy, w, 1) then old(Pixel(x - dx + sx, sy)) else old(Pixel(x, y))
    {
      var i := w;
      while i > 0
        invariant i <= w && (0 <= i || i == w)
        invariant forall x, y :: InBuffer(x, y) ==>
                    Pixel(x, y) == if InRect(x, y, dx + i, dy, w - i, 1) && i >= 0 then old(Pixel(x - dx + sx, sy)) else old(Pixel(x, y))
      {
        i := i - 1;
        SetPixel(dx + i, dy, Pixel(sx + i, sy));
      }
    }

    /** Rows from the top, for a move that is not downwards. */
    method MoveUp(dx: int, dy: int, sx: int, sy: int, w: int, h: int)
      requires Valid() && RectInRange(sx, sy, w, h) && RectInRange(dx, dy, w, h)
      requires dy < sy || (dy == sy && dx < sx)
      modifies buf
      ensures forall x, y :: InBuffer(x, y) ==>
                Pixel(x, y) == if InRect(x, y, dx, dy, w, h) then old(Pixel(x - dx + sx, y - dy + sy)) else old(Pixel(x, y))
    {
      var j := 0;
      while j < h
        invariant 0 <= j && (j == 0 || j <= h)
        invariant forall x, y :: InBuffer(x, y) ==>
                    Pixel(x, y) == if InRect(x, y, dx, dy, w, j) then old(Pixel(x - dx + sx, y - dy + sy)) else old(Pixel(x, y))
      {
        CopyRowForward(dx, dy + j, sx, sy + j, w);
        j := j + 1;
      }
    }

    /** Rows from the bottom, for a move downwards. */
    method MoveDown(dx: int, dy: int, sx: int, sy: int, w: int, h: int)
      requires Valid() && RectInRange(sx, sy, w, h) && RectInRange(dx, dy, w, h)
      requires dy > sy
      modifies buf
      ensures forall x, y :: InBuffer(x, y) ==>
                Pixel(x, y) == if InRect(x, y, dx, dy, w, h) then old(Pixel(x - dx + sx, y - dy + sy)) else old(Pixel(x, y))
    {
      var j := h;
      while j > 0
        invariant j <= h && (0 <= j || j == h)
        invariant forall x, y :: InBuffer(x, y) ==>
                    Pixel(x, y) == if InRect(x, y, dx, dy + j, w, h - j) && j >= 0 then old(Pixel(x - dx + sx, y - dy + sy)) else old(Pixel(x, y))
      {
        j := j - 1;
        CopyRowForward(dx, dy + j, sx, sy + j, w);
      }
    }

    /** Each row from its right end, for a move to the right within the same rows. */
    method MoveRight(dx: int, dy: int, sx: int, sy: int, w: int, h: int)
      requires Valid() && RectInRange(sx, sy, w, h) && RectInRange(dx, dy, w, h)
      requires dy == sy && dx > sx
      modifies buf
      ensures forall x, y :: InBuffer(x, y) ==>
                Pixel(x, y) == if InRect(x, y, dx, dy, w, h) then old(Pixel(x - dx + sx, y - dy + sy)) else old(Pixel(x, y))
    {
      var j := 0;
      while j < h
        invariant 0 <= j && (j == 0 || j <= h)
        invariant forall x, y :: InBuffer(x, y) ==>
                    Pixel(x, y) == if InRect(x, y, dx, dy, w, j) then old(Pixel(x - dx + sx, y - dy + sy)) else old(Pixel(x, y))
      {
        CopyRowBackward(dx, dy + j, sx, sy + j, w);
        j := j + 1;
      }
    }

    /** `transfer_rect`: however source and destination overlap, every destination pixel gets the old
        value of its source, as if all were copied at once. */
    method TransferRect(dx: int, dy: int, sx: int, sy: int, w: int, h: int) returns (ok: bool)
      requires Valid()
      modifies buf
      ensures ok <==> RectInRange(sx, sy, w, h) && RectInRange(dx, dy, w, h)
      ensures forall x, y :: InBuffer(x, y) ==>
                Pixel(x, y) == if ok && InRect(x, y, dx, dy, w, h) then old(Pixel(x - dx + sx, y - dy + sy)) else old(Pixel(x, y))
    {
      if !RectInRange(sx, sy, w, h) || !RectInRange(dx, dy, w, h) {
        return false;
      }
      if dy < sy || (dy == sy && dx < sx) {
        MoveUp(dx, dy, sx, sy, w, h);
      } else if dy > sy {
        MoveDown(dx, dy, sx, sy, w, h);
      } else if dx > sx {
        MoveRight(dx, dy, sx, sy, w, h);
      }
      ok := true;
    }
  }

  predicate InRect(x: int, y: int, px: int, py: int, w: int, h: int) {
    px <= x < px + w && py <= y < py + h
  }

  /** The colour a glyph leaves at one of its dots. */
  function Dot(font: Font, fg: u32, bg: Option<u32>, c: nat, i: nat, j: nat, before: u32): u32 {
    if Lit(font, c, i, j) then fg else if bg.Some? then bg.value else before
  }
}
