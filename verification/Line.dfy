/** `bitmap_draw_line` of noli/src/bitmap.rs: a line drawn column by column with a truncated
    fixed-point slope, and when its pixels join the two endpoints. */
module Line {
  import opened Common
  import opened Bitmap

  const MULTIPLIER: nat := 0x10_0000

  /** Rust's integer division truncates toward zero. */
  function TruncDiv(n: int, d: nat): int
    requires d > 0
  {
    if n >= 0 then n / d else -((-n) / d)
  }

  function Abs(n: int): nat { if n >= 0 then n else -n }

  predicate Between(a: int, b: int, y: int) {
    (a <= y <= b) || (b <= y <= a)
  }

  /** Row at which column `i` of a line from `y0` to `y1` over `lx` columns starts. */
  function RowAt(y0: int, y1: int, lx: nat, i: int): int
    requires lx > 0
  {
    y0 + TruncDiv(TruncDiv((y1 - y0) * MULTIPLIER, lx) * i, MULTIPLIER)
  }

  /** The pixels of a line. */
  predicate OnLine(x0: int, y0: int, x1: int, y1: int, x: int, y: int)
    decreases x1 < x0
  {
    if x1 < x0 then OnLine(x1, y1, x0, y0, x, y)
    else if x0 == x1 then x == x0 && Between(y0, y1, y)
    else
      var lx := x1 - x0 + 1;
      || (x == x0 && y == y0)
      || (x == x1 && y == y1)
      || (x0 <= x <= x1 && Between(RowAt(y0, y1, lx, x - x0), RowAt(y0, y1, lx, x - x0 + 1), y))
  }

  //
  // Arithmetic of the slope
  //

  /** Rows climbed after `i` columns, as a natural number. */
  function Climb(d: nat, lx: nat, i: nat): nat
    requires lx > 0
  {
    d * MULTIPLIER / lx * i / MULTIPLIER
  }

  lemma RowIsClimb(y0: int, y1: int, lx: nat, i: nat)
    requires lx > 0
    ensures RowAt(y0, y1, lx, i) == if y1 >= y0 then y0 + Climb(y1 - y0, lx, i) else y0 - Climb(y0 - y1, lx, i)
  {
    var d := Abs(y1 - y0);
    var a := d * MULTIPLIER / lx;
    assert a >= 0 && a * i >= 0;
    if y1 < y0 {
      assert (y1 - y0) * MULTIPLIER == -(d * MULTIPLIER);
      SignedSlope(d, lx, a, i);
    }
  }

  lemma SignedSlope(d: nat, lx: nat, a: nat, i: nat)
    requires lx > 0 && a == d * MULTIPLIER / lx
    ensures TruncDiv(TruncDiv(-(d * MULTIPLIER), lx) * i, MULTIPLIER) == -(a * i / MULTIPLIER)
  {
    assert TruncDiv(-(d * MULTIPLIER), lx) == 0 - a;
    assert (0 - a) * i == 0 - a * i;
  }

  lemma ClimbMonotone(d: nat, lx: nat, i: nat)
    requires lx > 0
    ensures Climb(d, lx, i) <= Climb(d, lx, i + 1) && Climb(d, lx, 0) == 0
  {
    var a := d * MULTIPLIER / lx;
    assert a * i <= a * (i + 1);
  }

  lemma DivTimes(n: nat, m: nat)
    requires m > 0
    ensures n == n / m * m + n % m && 0 <= n % m < m
  {
  }

  /** The truncated slope falls short of the target row by the rounded-up part of the remainder. */
  lemma ClimbEnd(d: nat, lx: nat)
    requires lx > 0
    ensures Climb(d, lx, lx) == d - (d * MULTIPLIER % lx + MULTIPLIER - 1) / MULTIPLIER
    ensures Climb(d, lx, lx) <= d
  {
    var n := d * MULTIPLIER;
    var q, r := n / lx, n % lx;
    DivTimes(n, lx);
    assert q * lx == n - r && q * lx >= 0;
    ShortBy(d, r);
  }

  lemma ShortBy(d: nat, r: nat)
    requires r <= d * MULTIPLIER
    ensures (d * MULTIPLIER - r) / MULTIPLIER == d - (r + MULTIPLIER - 1) / MULTIPLIER
  {
  }

  lemma {:induction false} ClimbBound(d: nat, lx: nat, i: nat)
    requires 0 <= i <= lx && lx > 0
    ensures Climb(d, lx, i) <= Climb(d, lx, lx) <= d
    decreases lx - i
  {
    ClimbEnd(d, lx);
    if i < lx {
      ClimbMonotone(d, lx, i);
      ClimbBound(d, lx, i + 1);
    }
  }

  /** Every row of the line lies between its endpoints' rows. */
  lemma RowInBox(y0: int, y1: int, lx: nat, i: nat)
    requires lx > 0 && i <= lx
    ensures Between(y0, y1, RowAt(y0, y1, lx, i))
    ensures i == 0 ==> RowAt(y0, y1, lx, i) == y0
  {
    RowIsClimb(y0, y1, lx, i);
    ClimbBound(Abs(y1 - y0), lx, i);
    ClimbMonotone(Abs(y1 - y0), lx, 0);
  }

  lemma OnLineInBox(x0: int, y0: int, x1: int, y1: int, x: int, y: int)
    requires OnLine(x0, y0, x1, y1, x, y)
    ensures Between(x0, x1, x) && Between(y0, y1, y)
    decreases x1 < x0
  {
    if x1 < x0 {
      OnLineInBox(x1, y1, x0, y0, x, y);
    } else if x0 < x1 && x0 <= x <= x1 {
      RowInBox(y0, y1, x1 - x0 + 1, x - x0);
      RowInBox(y0, y1, x1 - x0 + 1, x - x0 + 1);
    }
  }

  //
  // Drawing
  //

  method DrawVertical(buf: Buffer, color: u32, x: int, ya: int, yb: int)
    requires buf.Valid() && buf.IsInXRange(x) && buf.IsInYRange(ya) && buf.IsInYRange(yb)
    modifies buf.buf
    ensures forall px, py :: buf.InBuffer(px, py) ==> buf.Pixel(px, py) == if px == x && Between(ya, yb, py) then color else old(buf.Pixel(px, py))
  {
    var lo, hi := if ya <= yb then ya else yb, if ya <= yb then yb else ya;
    var y := lo;
    while y <= hi
      invariant lo <= y <= hi + 1
      invariant forall px, py :: buf.InBuffer(px, py) ==> buf.Pixel(px, py) == if px == x && lo <= py < y then color else old(buf.Pixel(px, py))
    {
      var drawn := buf.DrawPoint(color, x, y);
      assert drawn.Set?;
      y := y + 1;
    }
  }

  predicate EndsInRange(buf: Buffer, x0: int, y0: int, x1: int, y1: int) {
    buf.IsInXRange(x0) && buf.IsInXRange(x1) && buf.IsInYRange(y0) && buf.IsInYRange(y1)
  }

  /** Fails exactly when an endpoint is out of range; otherwise colours the line and nothing else. */
  method DrawLine(buf: Buffer, color: u32, x0: int, y0: int, x1: int, y1: int) returns (ok: bool)
    requires buf.Valid()
    modifies buf.buf
    ensures ok <==> EndsInRange(buf, x0, y0, x1, y1)
    ensures forall x, y :: buf.InBuffer(x, y) ==> buf.Pixel(x, y) == if ok && OnLine(x0, y0, x1, y1, x, y) then color else old(buf.Pixel(x, y))
    decreases x1 < x0
  {
    if !EndsInRange(buf, x0, y0, x1, y1) {
      return false;
    }
    if x1 < x0 {
      ok := DrawLine(buf, color, x1, y1, x0, y0);
      return;
    }
    if x1 == x0 {
      DrawVertical(buf, color, x0, y0, y1);
      return true;
    }
    DrawColumns(buf, color, x0, y0, x1, y1);
    var drawn := buf.DrawPoint(color, x0, y0);
    assert drawn.Set?;
    drawn := buf.DrawPoint(color, x1, y1);
    assert drawn.Set?;
    ok := true;
  }

  predicate InColumns(x0: int, y0: int, y1: int, lx: nat, n: int, x: int, y: int)
    requires lx > 0
  {
    x0 <= x < x0 + n && Between(RowAt(y0, y1, lx, x - x0), RowAt(y0, y1, lx, x - x0 + 1), y)
  }

  method DrawColumns(buf: Buffer, color: u32, x0: int, y0: int, x1: int, y1: int)
    requires buf.Valid() && EndsInRange(buf, x0, y0, x1, y1) && x0 < x1
    modifies buf.buf
    ensures forall x, y :: buf.InBuffer(x, y) ==>
              buf.Pixel(x, y) == if InColumns(x0, y0, y1, x1 - x0 + 1, x1 - x0 + 1, x, y) then color else old(buf.Pixel(x, y))
  {
    var lx := x1 - x0 + 1;
    var a := TruncDiv((y1 - y0) * MULTIPLIER, lx);
    for i := 0 to lx
      invariant forall x, y :: buf.InBuffer(x, y) ==>
                  buf.Pixel(x, y) == if InColumns(x0, y0, y1, lx, i, x, y) then color else old(buf.Pixel(x, y))
    {
      RowInBox(y0, y1, lx, i);
      RowInBox(y0, y1, lx, i + 1);
      DrawVertical(buf, color, x0 + i, y0 + TruncDiv(a * i, MULTIPLIER), y0 + TruncDiv(a * (i + 1), MULTIPLIER));
    }
  }

  //
  // Connectedness
  //

  datatype Point = Point(x: int, y: int)

  predicate Adjacent(p: Point, q: Point) {
    Abs(p.x - q.x) + Abs(p.y - q.y) == 1
  }

  datatype Ends = Ends(x0: int, y0: int, x1: int, y1: int)

  predicate On(e: Ends, p: Point) {
    OnLine(e.x0, e.y0, e.x1, e.y1, p.x, p.y)
  }

  /** A walk over pixels of the line, each next to the one before. */
  ghost predicate IsPath(e: Ends, path: seq<Point>, from: Point, to: Point) {
    && path != [] && path[0] == from && path[|path| - 1] == to
    && (forall k :: 0 <= k < |path| ==> On(e, path[k]))
    && (forall k :: 0 <= k < |path| - 1 ==> Adjacent(path[k], path[k + 1]))
  }

  lemma PathConcat(e: Ends, p: seq<Point>, q: seq<Point>, a: Point, b: Point, c: Point, d: Point)
    requires IsPath(e, p, a, b) && IsPath(e, q, c, d) && Adjacent(b, c)
    ensures IsPath(e, p + q, a, d)
  {
    var r := p + q;
    forall k | 0 <= k < |r| - 1 ensures Adjacent(r[k], r[k + 1]) {
      if k < |p| - 1 {
        assert Adjacent(p[k], p[k + 1]);
      } else if k >= |p| {
        assert Adjacent(q[k - |p|], q[k - |p| + 1]);
      }
    }
  }

  lemma {:induction false} VerticalPath(e: Ends, x: int, ya: int, yb: int) returns (path: seq<Point>)
    requires forall y :: Between(ya, yb, y) ==> On(e, Point(x, y))
    ensures IsPath(e, path, Point(x, ya), Point(x, yb))
    decreases Abs(yb - ya)
  {
    assert Between(ya, yb, yb);
    if ya == yb {
      path := [Point(x, ya)];
    } else {
      var y := if ya < yb then yb - 1 else yb + 1;
      forall z | Between(ya, y, z) ensures On(e, Point(x, z)) {
        assert Between(ya, yb, z);
      }
      path := VerticalPath(e, x, ya, y);
      assert IsPath(e, [Point(x, yb)], Point(x, yb), Point(x, yb));
      PathConcat(e, path, [Point(x, yb)], Point(x, ya), Point(x, y), Point(x, yb), Point(x, yb));
      path := path + [Point(x, yb)];
    }
  }

  /** Column `i` joins its first row to its last, and the next column starts beside that. */
  lemma {:induction false} ColumnsPath(e: Ends, i: nat) returns (path: seq<Point>)
    requires e.x0 < e.x1 && i <= e.x1 - e.x0
    ensures IsPath(e, path, Point(e.x0, e.y0), Point(e.x0 + i, RowAt(e.y0, e.y1, e.x1 - e.x0 + 1, i + 1)))
    decreases i
  {
    var lx := e.x1 - e.x0 + 1;
    var ya, yb := RowAt(e.y0, e.y1, lx, i), RowAt(e.y0, e.y1, lx, i + 1);
    forall y | Between(ya, yb, y) ensures On(e, Point(e.x0 + i, y)) {
      assert (e.x0 + i) - e.x0 == i;
    }
    path := VerticalPath(e, e.x0 + i, ya, yb);
    if i == 0 {
      RowInBox(e.y0, e.y1, lx, 0);
    } else {
      var before := ColumnsPath(e, i - 1);
      PathConcat(e, before, path, Point(e.x0, e.y0), Point(e.x0 + i - 1, ya), Point(e.x0 + i, ya), Point(e.x0 + i, yb));
      path := before + path;
    }
  }

  /** What the truncated slope loses: zero for a vertical line. */
  function Remainder(x0: int, y0: int, x1: int, y1: int): nat {
    if x0 == x1 then 0 else Abs(y1 - y0) * MULTIPLIER % (Abs(x1 - x0) + 1)
  }

  /** Steps to side neighbours lead from `a` to `b` on coloured pixels only. */
  ghost predicate Reaches(e: Ends, a: Point, b: Point) {
    exists path :: IsPath(e, path, a, b)
  }

  /** The coloured pixels hang together: every one is reached from every other. */
  ghost predicate Connected(e: Ends) {
    forall p, q {:trigger Reaches(e, p, q)} :: On(e, p) && On(e, q) ==> Reaches(e, p, q)
  }

  function First(e: Ends): Point { Point(e.x0, e.y0) }
  function Last(e: Ends): Point { Point(e.x1, e.y1) }

  /** The last column ends `ceil(remainder / 2^20)` rows before the endpoint. */
  lemma LastRow(e: Ends)
    requires e.x0 < e.x1
    ensures var gap := (Remainder(e.x0, e.y0, e.x1, e.y1) + MULTIPLIER - 1) / MULTIPLIER;
            RowAt(e.y0, e.y1, e.x1 - e.x0 + 1, e.x1 - e.x0 + 1) == if e.y1 >= e.y0 then e.y1 - gap else e.y1 + gap
  {
    var lx := e.x1 - e.x0 + 1;
    RowIsClimb(e.y0, e.y1, lx, lx);
    ClimbEnd(Abs(e.y1 - e.y0), lx);
  }

  lemma SmallRemainderJoins(e: Ends)
    requires e.x0 < e.x1 && Remainder(e.x0, e.y0, e.x1, e.y1) <= MULTIPLIER
    ensures Reaches(e, First(e), Last(e))
  {
    var lx := e.x1 - e.x0 + 1;
    var last := RowAt(e.y0, e.y1, lx, lx);
    var path := ColumnsPath(e, lx - 1);
    LastRow(e);
    if last != e.y1 {
      var to := Point(e.x1, e.y1);
      assert IsPath(e, [to], to, to);
      PathConcat(e, path, [to], Point(e.x0, e.y0), Point(e.x1, last), to, to);
      assert IsPath(e, path + [to], Point(e.x0, e.y0), to);
    }
  }

  /** With a larger remainder the endpoint stands alone. */
  lemma LargeRemainderIsolates(e: Ends, p: Point)
    requires e.x0 < e.x1 && Remainder(e.x0, e.y0, e.x1, e.y1) > MULTIPLIER
    requires On(e, p)
    ensures !Adjacent(p, Point(e.x1, e.y1))
  {
    var lx, d := e.x1 - e.x0 + 1, Abs(e.y1 - e.y0);
    LastRow(e);
    RowIsClimb(e.y0, e.y1, lx, lx);
    OnLineInBox(e.x0, e.y0, e.x1, e.y1, p.x, p.y);
    ClimbBound(d, lx, p.x - e.x0);
    ClimbBound(d, lx, p.x - e.x0 + 1);
    RowIsClimb(e.y0, e.y1, lx, p.x - e.x0);
    RowIsClimb(e.y0, e.y1, lx, p.x - e.x0 + 1);
  }

  lemma {:induction false} ReversePath(e: Ends, path: seq<Point>, a: Point, b: Point) returns (r: seq<Point>)
    requires IsPath(e, path, a, b)
    ensures IsPath(e, r, b, a)
    decreases |path|
  {
    if |path| == 1 {
      r := path;
    } else {
      var tail := path[1..];
      assert IsPath(e, tail, path[1], b) by {
        forall k | 0 <= k < |tail| - 1 ensures Adjacent(tail[k], tail[k + 1]) {
          assert Adjacent(path[k + 1], path[k + 2]);
        }
      }
      r := ReversePath(e, tail, path[1], b);
      assert IsPath(e, [a], a, a);
      assert Adjacent(path[0], path[1]);
      PathConcat(e, r, [a], b, path[1], a, a);
      r := r + [a];
    }
  }

  lemma TailPath(e: Ends, path: seq<Point>, a: Point, b: Point)
    requires IsPath(e, path, a, b) && |path| > 1
    ensures IsPath(e, path[1..], path[1], b) && Adjacent(a, path[1])
  {
    var tail := path[1..];
    forall k | 0 <= k < |tail| - 1 ensures Adjacent(tail[k], tail[k + 1]) {
      assert Adjacent(path[k + 1], path[k + 2]);
    }
    assert Adjacent(path[0], path[1]);
  }

  lemma ReachesBack(e: Ends, a: Point, b: Point)
    requires Reaches(e, a, b)
    ensures Reaches(e, b, a)
  {
    var path :| IsPath(e, path, a, b);
    var r := ReversePath(e, path, a, b);
  }

  lemma ReachesOn(e: Ends, a: Point, b: Point, c: Point)
    requires Reaches(e, a, b) && Reaches(e, b, c)
    ensures Reaches(e, a, c)
  {
    var path :| IsPath(e, path, a, b);
    var path' :| IsPath(e, path', b, c);
    if |path'| > 1 {
      TailPath(e, path', b, c);
      PathConcat(e, path, path'[1..], a, b, path'[1], c);
      assert IsPath(e, path + path'[1..], a, c);
    }
  }

  /** The first endpoint reaches every pixel of column `i`. */
  lemma ReachesColumn(e: Ends, i: nat, y: int)
    requires e.x0 < e.x1 && i <= e.x1 - e.x0
    requires Between(RowAt(e.y0, e.y1, e.x1 - e.x0 + 1, i), RowAt(e.y0, e.y1, e.x1 - e.x0 + 1, i + 1), y)
    ensures Reaches(e, First(e), Point(e.x0 + i, y))
  {
    var lx := e.x1 - e.x0 + 1;
    var ya, yb := RowAt(e.y0, e.y1, lx, i), RowAt(e.y0, e.y1, lx, i + 1);
    forall z | Between(ya, y, z) ensures On(e, Point(e.x0 + i, z)) {
      assert (e.x0 + i) - e.x0 == i && Between(ya, yb, z);
    }
    var path := VerticalPath(e, e.x0 + i, ya, y);
    if i == 0 {
      RowInBox(e.y0, e.y1, lx, 0);
    } else {
      var before := ColumnsPath(e, i - 1);
      PathConcat(e, before, path, First(e), Point(e.x0 + i - 1, ya), Point(e.x0 + i, ya), Point(e.x0 + i, y));
      assert IsPath(e, before + path, First(e), Point(e.x0 + i, y));
    }
  }

  lemma ReachesAll(e: Ends, p: Point)
    requires e.x0 < e.x1 && Remainder(e.x0, e.y0, e.x1, e.y1) <= MULTIPLIER && On(e, p)
    ensures Reaches(e, First(e), p)
  {
    if p == First(e) {
      assert IsPath(e, [p], p, p);
    } else if p == Last(e) {
      SmallRemainderJoins(e);
    } else {
      ReachesColumn(e, p.x - e.x0, p.y);
    }
  }

  lemma ConnectedFrom(e: Ends, a: Point)
    requires forall p :: On(e, p) ==> Reaches(e, a, p)
    ensures Connected(e)
  {
    forall p, q | On(e, p) && On(e, q) ensures Reaches(e, p, q) {
      ReachesBack(e, a, p);
      ReachesOn(e, p, a, q);
    }
  }

  lemma ConnectedRightward(e: Ends)
    requires e.x0 < e.x1
    ensures Connected(e) <==> Remainder(e.x0, e.y0, e.x1, e.y1) <= MULTIPLIER
  {
    if Remainder(e.x0, e.y0, e.x1, e.y1) <= MULTIPLIER {
      forall p | On(e, p) ensures Reaches(e, First(e), p) {
        ReachesAll(e, p);
      }
      ConnectedFrom(e, First(e));
    } else if Connected(e) {
      assert On(e, First(e)) && On(e, Last(e));
      assert Reaches(e, First(e), Last(e));
      var path :| IsPath(e, path, First(e), Last(e));
      var k := |path| - 2;
      assert Adjacent(path[k], path[k + 1]) && On(e, path[k]);
      LargeRemainderIsolates(e, path[k]);
    }
  }

  lemma VerticalConnected(e: Ends)
    requires e.x0 == e.x1
    ensures Connected(e)
  {
    forall p | On(e, p) ensures Reaches(e, First(e), p) {
      forall y | Between(e.y0, p.y, y) ensures On(e, Point(e.x0, y)) {
        assert Between(e.y0, e.y1, y);
      }
      var path := VerticalPath(e, e.x0, e.y0, p.y);
      assert IsPath(e, path, First(e), p);
    }
    ConnectedFrom(e, First(e));
  }

  /** Drawn from the other end, a line has the same pixels. */
  lemma SameLineReaches(e: Ends, f: Ends, a: Point, b: Point)
    requires e.x1 != e.x0 && f == Ends(e.x1, e.y1, e.x0, e.y0) && Reaches(f, a, b)
    ensures Reaches(e, a, b)
  {
    var path :| IsPath(f, path, a, b);
    forall k | 0 <= k < |path| ensures On(e, path[k]) {
      assert On(f, path[k]);
    }
    assert IsPath(e, path, a, b);
  }

  lemma SameLineConnected(e: Ends, f: Ends)
    requires e.x1 != e.x0 && f == Ends(e.x1, e.y1, e.x0, e.y0) && Connected(f)
    ensures Connected(e)
  {
    forall p, q | On(e, p) && On(e, q) ensures Reaches(e, p, q) {
      assert On(f, p) && On(f, q);
      assert Reaches(f, p, q);
      SameLineReaches(e, f, p, q);
    }
  }

  /** The coloured pixels are 4-connected, both endpoints among them, if and only if the remainder of
      the slope is at most 2^20. */
  lemma LineIsConnected(e: Ends)
    ensures On(e, First(e)) && On(e, Last(e))
    ensures Connected(e) <==> e.x0 == e.x1 || Abs(e.y1 - e.y0) * 0x10_0000 % (Abs(e.x1 - e.x0) + 1) <= 0x10_0000
  {
    if e.x0 == e.x1 {
      VerticalConnected(e);
    } else if e.x0 < e.x1 {
      ConnectedRightward(e);
    } else {
      var f := Ends(e.x1, e.y1, e.x0, e.y0);
      ConnectedRightward(f);
      if Connected(f) {
        SameLineConnected(e, f);
      }
      if Connected(e) {
        SameLineConnected(f, e);
      }
    }
  }

  /** Up to 2^20 columns a line is always connected. */
  lemma ShortLinesConnected(e: Ends)
    requires Abs(e.x1 - e.x0) < 0x10_0000
    ensures Connected(e)
  {
    LineIsConnected(e);
  }

  /** Beyond that its last pixel may stand alone. */
  lemma LongLineBreaks(p: Point)
    ensures var e := Ends(0, 0, 0x20_0000, 2); !Connected(e) && (On(e, p) ==> !Adjacent(p, Last(e)))
  {
    var e := Ends(0, 0, 0x20_0000, 2);
    LineIsConnected(e);
    if On(e, p) {
      LargeRemainderIsolates(e, p);
    }
  }
}
