/**
 A model of the dead-pixel repair of change_pixel_from_video.py.

 A frame is a grid of opaque pixels indexed frame[y][x] (row y, column x).
 The defective rectangle runs from its top-left corner `from` (inclusive)
 to its bottom-right corner `to` (exclusive on both axes). Every pixel
 inside it is overwritten, in place, by a neighbour chosen by comparing
 the pixel with the rectangle's middle. Because the writes happen in place
 and later pixels read earlier ones, values cascade; FinalSource gives the
 closed form of that cascade and ChangeFrame is proved against it.
 */
module ChangePixel {

  /** A pixel coordinate: column x, row y. */
  datatype Point = Point(x: int, y: int)

  /** The defective rectangle [from.x, to.x) x [from.y, to.y). */
  datatype Rect = Rect(from: Point, to: Point)

  /** A frame as a value: a sequence of rows. */
  type Grid<T> = seq<seq<T>>

  predicate IsGrid<T>(g: Grid<T>, height: int, width: int) {
    |g| == height && forall y :: 0 <= y < |g| ==> |g[y]| == width
  }

  predicate InFrame(p: Point, height: int, width: int) {
    0 <= p.y < height && 0 <= p.x < width
  }

  predicate InRect(p: Point, r: Rect) {
    r.from.x <= p.x < r.to.x && r.from.y <= p.y < r.to.y
  }

  /** The rectangle together with the one-pixel ring around it. */
  predicate InRing(p: Point, r: Rect) {
    r.from.x - 1 <= p.x <= r.to.x && r.from.y - 1 <= p.y <= r.to.y
  }

  /** What the repair needs of its rectangle: the row above it, the column
      left of it, the column `to.x` and the row `to.y` all lie in the frame. */
  predicate FitsFrame(r: Rect, height: int, width: int) {
    1 <= r.from.x <= r.to.x < width && 1 <= r.from.y <= r.to.y < height
  }

  predicate GridFits<T>(g: Grid<T>, r: Rect) {
    |g| > 0 && IsGrid(g, |g|, |g[0]|) && FitsFrame(r, |g|, |g[0]|)
  }

  // ---------------------------------------------------------------------
  // The reference point

  /** The middle pixel: the ceiling of the midpoint of the two corners on
      each axis. It lies within the rectangle, its closing edges included. */
  function Middle(r: Rect): (m: Point)
    ensures r.from.x + r.to.x <= 2 * m.x <= r.from.x + r.to.x + 1
    ensures r.from.y + r.to.y <= 2 * m.y <= r.from.y + r.to.y + 1
    ensures r.from.x <= r.to.x ==> r.from.x <= m.x <= r.to.x
    ensures r.from.y <= r.to.y ==> r.from.y <= m.y <= r.to.y
  {
    Point((r.from.x + r.to.x + 1) / 2, (r.from.y + r.to.y + 1) / 2)
  }

  // ---------------------------------------------------------------------
  // The coordinate predicates

  predicate IsSame(p: Point, q: Point) {
    p.x == q.x && p.y == q.y
  }

  predicate IsRighterThan(p: Point, q: Point) {
    p.x > q.x
  }

  predicate IsLefterThan(p: Point, q: Point) {
    p.x < q.x
  }

  predicate IsLowerThan(p: Point, q: Point) {
    p.y > q.y
  }

  predicate IsHigherThan(p: Point, q: Point) {
    p.y < q.y
  }

  /** Relative to a reference, a point is left, right or in its column, and
      above, below or in its row; it is the same point exactly when it is
      neither. "Lefter" and "righter", "higher" and "lower" are converses. */
  lemma PredicatesPartition(p: Point, q: Point)
    ensures !(IsLefterThan(p, q) && IsRighterThan(p, q))
    ensures !(IsHigherThan(p, q) && IsLowerThan(p, q))
    ensures IsSame(p, q) <==>
      !IsLefterThan(p, q) && !IsRighterThan(p, q) && !IsHigherThan(p, q) && !IsLowerThan(p, q)
    ensures IsLefterThan(p, q) <==> IsRighterThan(q, p)
    ensures IsHigherThan(p, q) <==> IsLowerThan(q, p)
  {
  }

  // ---------------------------------------------------------------------
  // Choosing a neighbour

  /** Which neighbour a pixel copies. */
  datatype Rule =
    | FromAbove       // the pixel one row up
    | FromLeft        // the pixel one column to the left
    | FromRightEdge   // the pixel of the same row in column to.x
    | FromBottomEdge  // the pixel of the same column in row to.y
    | FromCorner      // the pixel (to.x, to.y)
    | Unchanged       // no branch fires; the pixel keeps its value

  /** The fourth test of the branch chain: the program as written repeats
      the "lefter" test there; LowerFixed is the evidently intended "lower". */
  datatype Variant = AsWritten | LowerFixed

  predicate LowerTest(v: Variant, p: Point, m: Point) {
    match v
    case AsWritten => IsLefterThan(p, m)
    case LowerFixed => IsLowerThan(p, m)
  }

  /** The first matching branch of the chain. The regions it selects: rows
      above the middle copy from above; below-or-level pixels left or right of
      the middle column copy from the left or from column to.x; the middle
      itself copies the corner. In the middle column below the middle the
      program as written fires no branch at all, so the bottom-edge rule never
      fires there. */
  function ChosenRule(v: Variant, p: Point, m: Point): (rule: Rule)
    ensures rule == FromAbove <==> p.y < m.y
    ensures rule == FromLeft <==> p.y >= m.y && p.x < m.x
    ensures rule == FromRightEdge <==> p.y >= m.y && p.x > m.x
    ensures rule == FromCorner <==> p == m
    ensures rule == FromBottomEdge <==> v == LowerFixed && p.x == m.x && p.y > m.y
    ensures rule == Unchanged <==> v == AsWritten && p.x == m.x && p.y > m.y
  {
    if IsHigherThan(p, m) then FromAbove
    else if IsLefterThan(p, m) then FromLeft
    else if IsRighterThan(p, m) then FromRightEdge
    else if LowerTest(v, p, m) then FromBottomEdge
    else if IsSame(p, m) then FromCorner
    else Unchanged
  }

  /** The pixel a rule reads, in the frame as it is at that moment. */
  function ReadFrom(rule: Rule, p: Point, r: Rect): Point {
    match rule
    case FromAbove => Point(p.x, p.y - 1)
    case FromLeft => Point(p.x - 1, p.y)
    case FromRightEdge => Point(r.to.x, p.y)
    case FromBottomEdge => Point(p.x, r.to.y)
    case FromCorner => Point(r.to.x, r.to.y)
    case Unchanged => p
  }

  // ---------------------------------------------------------------------
  // The result of the cascade, in closed form

  /** The pixel of the ORIGINAL frame whose value `p` holds once the sweep
      is over. Pixels outside the rectangle keep their own value; every
      rewritten pixel takes a value from the one-pixel ring around the
      rectangle, never from inside it. */
  function FinalSource(v: Variant, p: Point, r: Rect, m: Point): (s: Point)
    ensures !InRect(p, r) ==> s == p
    ensures InRect(p, r) && ChosenRule(v, p, m) != Unchanged ==> !InRect(s, r)
    ensures InRect(p, r) ==> r.from.x - 1 <= s.x <= r.to.x && r.from.y - 1 <= s.y <= r.to.y
  {
    if !InRect(p, r) then p
    else match ChosenRule(v, p, m)
      case FromAbove => Point(p.x, r.from.y - 1)
      case FromLeft => Point(r.from.x - 1, p.y)
      case FromRightEdge => Point(r.to.x, p.y)
      case FromBottomEdge => Point(p.x, r.to.y)
      case FromCorner => Point(r.to.x, r.to.y)
      case Unchanged => p
  }

  /** One step of the in-place sweep (columns left to right, each column top
      to bottom): the neighbour a rewritten pixel reads is either outside the
      rectangle, so still original, or inside it and already visited, and
      following it leads to the same final source. This is why the cascade
      ends where FinalSource says. */
  lemma CascadeStep(v: Variant, p: Point, r: Rect, m: Point)
    requires InRect(p, r) && ChosenRule(v, p, m) != Unchanged
    ensures var q := ReadFrom(ChosenRule(v, p, m), p, r);
      if InRect(q, r) then
        (q.x < p.x || (q.x == p.x && q.y < p.y)) && FinalSource(v, q, r, m) == FinalSource(v, p, r, m)
      else
        FinalSource(v, p, r, m) == q
  {
  }

  /** Following the final source a second time goes nowhere new. */
  lemma SourceIsFixedPoint(v: Variant, p: Point, r: Rect, m: Point)
    ensures FinalSource(v, FinalSource(v, p, r, m), r, m) == FinalSource(v, p, r, m)
  {
  }

  /** The pixel of a grid at a point. */
  function Pick<T>(g: Grid<T>, p: Point): T
    requires 0 <= p.y < |g| && 0 <= p.x < |g[p.y]|
  {
    g[p.y][p.x]
  }

  /** The repaired frame as a value: every pixel holds the original value of
      its final source. */
  function Repaired<T>(g: Grid<T>, r: Rect, m: Point, v: Variant): (h: Grid<T>)
    requires GridFits(g, r)
    ensures IsGrid(h, |g|, |g[0]|)
    ensures forall y, x :: 0 <= y < |g| && 0 <= x < |g[0]| && !InRect(Point(x, y), r) ==>
      h[y][x] == g[y][x]
  {
    seq(|g|, y requires 0 <= y < |g| =>
      seq(|g[y]|, x requires 0 <= x < |g[y]| => Pick(g, FinalSource(v, Point(x, y), r, m))))
  }

  /** A single pixel of the repaired frame. */
  lemma RepairedAt<T>(g: Grid<T>, r: Rect, m: Point, v: Variant, p: Point)
    requires GridFits(g, r) && InFrame(p, |g|, |g[0]|)
    ensures Repaired(g, r, m, v)[p.y][p.x] == Pick(g, FinalSource(v, p, r, m))
  {
  }

  /** What the two cascading regions of the rectangle end up holding, in
      terms of the original frame: the copies from above and from the left
      reach back to the row just above the rectangle and the column just left
      of it. */
  lemma RepairedCascades<T>(g: Grid<T>, r: Rect, m: Point, v: Variant)
    requires GridFits(g, r)
    // above the middle: the pixel just above the rectangle, same column
    ensures forall y, x :: InRect(Point(x, y), r) && y < m.y ==>
      Repaired(g, r, m, v)[y][x] == g[r.from.y - 1][x]
    // level with or below the middle, left of it: the pixel just left of the rectangle, same row
    ensures forall y, x :: InRect(Point(x, y), r) && y >= m.y && x < m.x ==>
      Repaired(g, r, m, v)[y][x] == g[y][r.from.x - 1]
  {
    var h := Repaired(g, r, m, v);
    forall y, x | InRect(Point(x, y), r) && y < m.y
      ensures h[y][x] == g[r.from.y - 1][x]
    {
      RepairedAt(g, r, m, v, Point(x, y));
    }
    forall y, x | InRect(Point(x, y), r) && y >= m.y && x < m.x
      ensures h[y][x] == g[y][r.from.x - 1]
    {
      RepairedAt(g, r, m, v, Point(x, y));
    }
  }

  /** What the rest of the rectangle ends up holding: copies of pixels on the
      rectangle's closing edges, and nothing at all in the middle column below
      the middle as written. */
  lemma RepairedEdgeCopies<T>(g: Grid<T>, r: Rect, m: Point, v: Variant)
    requires GridFits(g, r)
    // level with or below the middle, right of it: the pixel of column to.x, same row
    ensures forall y, x :: InRect(Point(x, y), r) && y >= m.y && x > m.x ==>
      Repaired(g, r, m, v)[y][x] == g[y][r.to.x]
    // the middle itself: the pixel diagonally past the bottom-right corner
    ensures InRect(m, r) ==> Repaired(g, r, m, v)[m.y][m.x] == g[r.to.y][r.to.x]
    // the middle column below the middle: untouched as written, row to.y when fixed
    ensures forall y, x :: InRect(Point(x, y), r) && x == m.x && y > m.y ==>
      Repaired(g, r, m, v)[y][x] == (if v == AsWritten then g[y][x] else g[r.to.y][x])
  {
    var h := Repaired(g, r, m, v);
    forall y, x | InRect(Point(x, y), r) && y >= m.y && x > m.x
      ensures h[y][x] == g[y][r.to.x]
    {
      RepairedAt(g, r, m, v, Point(x, y));
    }
    if InRect(m, r) {
      RepairedAt(g, r, m, v, m);
    }
    forall y, x | InRect(Point(x, y), r) && x == m.x && y > m.y
      ensures h[y][x] == (if v == AsWritten then g[y][x] else g[r.to.y][x])
    {
      RepairedAt(g, r, m, v, Point(x, y));
    }
  }

  /** Repairing a repaired frame changes nothing. */
  lemma RepairedIdempotent<T>(g: Grid<T>, r: Rect, m: Point, v: Variant)
    requires GridFits(g, r)
    ensures GridFits(Repaired(g, r, m, v), r)
    ensures Repaired(Repaired(g, r, m, v), r, m, v) == Repaired(g, r, m, v)
  {
    var h := Repaired(g, r, m, v);
    var h2 := Repaired(h, r, m, v);
    forall y | 0 <= y < |g|
      ensures h2[y] == h[y]
    {
      forall x | 0 <= x < |g[0]|
        ensures h2[y][x] == h[y][x]
      {
        SourceIsFixedPoint(v, Point(x, y), r, m);
      }
    }
  }

  /** When the one-pixel ring around the rectangle has one colour c, the
      repair paints c over every pixel it rewrites, so the ring and the
      rectangle end all c; only the pixels that the program as written leaves
      alone (middle column, below the middle) may keep another value. */
  lemma UniformSurroundingRestored<T>(g: Grid<T>, r: Rect, m: Point, v: Variant, c: T)
    requires GridFits(g, r)
    requires forall y, x :: InRing(Point(x, y), r) && !InRect(Point(x, y), r) ==> g[y][x] == c
    ensures forall y, x ::
      (InRing(Point(x, y), r) &&
       !(v == AsWritten && InRect(Point(x, y), r) && x == m.x && y > m.y)) ==>
        Repaired(g, r, m, v)[y][x] == c
  {
    var h := Repaired(g, r, m, v);
    forall y, x | InRing(Point(x, y), r) &&
      !(v == AsWritten && InRect(Point(x, y), r) && x == m.x && y > m.y)
      ensures h[y][x] == c
    {
      var s := FinalSource(v, Point(x, y), r, m);
      assert h[y][x] == g[s.y][s.x];
    }
  }

  /** The corrected chain leaves no pixel of the rectangle as it was: every
      one of them ends with the value of a pixel outside the rectangle. */
  lemma CorrectedRepairsWholeRect<T>(g: Grid<T>, r: Rect, m: Point)
    requires GridFits(g, r)
    ensures forall y, x :: InRect(Point(x, y), r) ==>
      var s := FinalSource(LowerFixed, Point(x, y), r, m);
      !InRect(s, r) && Repaired(g, r, m, LowerFixed)[y][x] == Pick(g, s)
  {
    var h := Repaired(g, r, m, LowerFixed);
    forall y, x | InRect(Point(x, y), r)
      ensures h[y][x] == Pick(g, FinalSource(LowerFixed, Point(x, y), r, m))
    {
    }
  }

  /** The rectangle the program is configured with. */
  const ConfiguredRect := Rect(Point(948, 230), Point(954, 235))

  /** With the configured rectangle the middle is (951, 233), and the pixel
      (951, 234) inside the rectangle is never rewritten by the chain as
      written; the corrected chain copies the pixel below the rectangle. */
  lemma ConfiguredRectLeavesPixelUnrepaired<T>(g: Grid<T>)
    requires GridFits(g, ConfiguredRect)
    ensures Middle(ConfiguredRect) == Point(951, 233)
    ensures InRect(Point(951, 234), ConfiguredRect)
    ensures Repaired(g, ConfiguredRect, Middle(ConfiguredRect), AsWritten)[234][951] == g[234][951]
    ensures Repaired(g, ConfiguredRect, Middle(ConfiguredRect), LowerFixed)[234][951] == g[235][951]
  {
    RepairedEdgeCopies(g, ConfiguredRect, Middle(ConfiguredRect), AsWritten);
    RepairedEdgeCopies(g, ConfiguredRect, Middle(ConfiguredRect), LowerFixed);
  }

  /** A 2 x 2 defect from (2, 2) to (4, 4): its middle is (3, 3); the top row
      copies the row above, (2, 3) copies its left neighbour outside, and the
      middle copies the pixel (4, 4) past the bottom-right corner. */
  lemma SmallSquareScenario<T>(g: Grid<T>)
    requires GridFits(g, Rect(Point(2, 2), Point(4, 4)))
    ensures Middle(Rect(Point(2, 2), Point(4, 4))) == Point(3, 3)
    ensures var h := Repaired(g, Rect(Point(2, 2), Point(4, 4)), Point(3, 3), AsWritten);
      h[2][2] == g[1][2] && h[2][3] == g[1][3] && h[3][2] == g[3][1] && h[3][3] == g[4][4]
  {
    RepairedCascades(g, Rect(Point(2, 2), Point(4, 4)), Point(3, 3), AsWritten);
    RepairedEdgeCopies(g, Rect(Point(2, 2), Point(4, 4)), Point(3, 3), AsWritten);
  }

  // ---------------------------------------------------------------------
  // The in-place repair

  /** The frame's pixels as a value. */
  ghost function Pixels<T>(frame: array2<T>): (g: Grid<T>)
    reads frame
    ensures IsGrid(g, frame.Length0, frame.Length1)
    ensures forall y, x :: 0 <= y < frame.Length0 && 0 <= x < frame.Length1 ==> g[y][x] == frame[y, x]
  {
    seq(frame.Length0, y requires 0 <= y < frame.Length0 reads frame =>
      seq(frame.Length1, x requires 0 <= x < frame.Length1 reads frame => frame[y, x]))
  }

  /** Whether the sweep, now at column x and row y, has already rewritten p. */
  predicate Visited(p: Point, r: Rect, x: int, y: int) {
    InRect(p, r) && (p.x < x || (p.x == x && p.y < y))
  }

  /** What pixel p holds while the sweep is at column x and row y: its final
      value if it has been visited, its original value otherwise. */
  ghost function Expected<T>(g: Grid<T>, r: Rect, m: Point, v: Variant, p: Point, x: int, y: int): T
    requires GridFits(g, r) && InFrame(p, |g|, |g[0]|)
  {
    if Visited(p, r, x, y) then Pick(g, FinalSource(v, p, r, m)) else Pick(g, p)
  }

  /** One pass of the inner loop body: the first matching branch overwrites
      pixel (x, y) with the neighbour its rule reads; no other pixel changes. */
  method RepairPixel<T>(frame: array2<T>, r: Rect, middle: Point, v: Variant, x: int, y: int)
    requires FitsFrame(r, frame.Length0, frame.Length1) && InRect(Point(x, y), r)
    modifies frame
    ensures var rule := ChosenRule(v, Point(x, y), middle); var q := ReadFrom(rule, Point(x, y), r);
      frame[y, x] == old(frame[q.y, q.x])
    ensures forall yy, xx :: 0 <= yy < frame.Length0 && 0 <= xx < frame.Length1 && (yy, xx) != (y, x) ==>
      frame[yy, xx] == old(frame[yy, xx])
  {
    var p := Point(x, y);
    if IsHigherThan(p, middle) {
      frame[y, x] := frame[y - 1, x];
    } else if IsLefterThan(p, middle) {
      frame[y, x] := frame[y, x - 1];
    } else if IsRighterThan(p, middle) {
      frame[y, x] := frame[y, r.to.x];
    } else if LowerTest(v, p, middle) {
      frame[y, x] := frame[r.to.y, x];
    } else if IsSame(p, middle) {
      frame[y, x] := frame[r.to.y, r.to.x];
    }
  }

  /** The frame, as a value, while the sweep is at column x and row y:
      visited pixels hold their final values, all others their original ones. */
  ghost predicate SweptUpTo<T>(cur: Grid<T>, g: Grid<T>, r: Rect, m: Point, v: Variant, x: int, y: int)
    requires GridFits(g, r)
  {
    IsGrid(cur, |g|, |g[0]|) &&
    forall yy, xx :: 0 <= yy < |g| && 0 <= xx < |g[0]| ==>
      cur[yy][xx] == Expected(g, r, m, v, Point(xx, yy), x, y)
  }

  /** Rewriting pixel (x, y) with the neighbour its rule reads moves the sweep
      one row on. */
  lemma SweepStep<T>(before: Grid<T>, after: Grid<T>, g: Grid<T>, r: Rect, m: Point, v: Variant, x: int, y: int)
    requires GridFits(g, r) && InRect(Point(x, y), r)
    requires SweptUpTo(before, g, r, m, v, x, y)
    requires IsGrid(after, |g|, |g[0]|)
    requires var q := ReadFrom(ChosenRule(v, Point(x, y), m), Point(x, y), r);
      after[y][x] == before[q.y][q.x]
    requires forall yy, xx :: 0 <= yy < |g| && 0 <= xx < |g[0]| && (yy, xx) != (y, x) ==>
      after[yy][xx] == before[yy][xx]
    ensures SweptUpTo(after, g, r, m, v, x, y + 1)
  {
    var p := Point(x, y);
    if ChosenRule(v, p, m) != Unchanged {
      CascadeStep(v, p, r, m);
    }
    forall yy, xx | 0 <= yy < |g| && 0 <= xx < |g[0]|
      ensures after[yy][xx] == Expected(g, r, m, v, Point(xx, yy), x, y + 1)
    {
      if (yy, xx) != (y, x) {
        assert after[yy][xx] == before[yy][xx] == Expected(g, r, m, v, Point(xx, yy), x, y);
      }
    }
  }

  /** The inner loop: column x from the rectangle's top row down to its
      bottom, so that every pixel of the column gets its final value. */
  method RepairColumn<T>(frame: array2<T>, ghost g: Grid<T>, r: Rect, middle: Point, v: Variant, x: int)
    requires GridFits(g, r) && IsGrid(g, frame.Length0, frame.Length1)
    requires r.from.x <= x < r.to.x
    requires SweptUpTo(Pixels(frame), g, r, middle, v, x, r.from.y)
    modifies frame
    ensures SweptUpTo(Pixels(frame), g, r, middle, v, x + 1, r.from.y)
  {
    var y := r.from.y;
    while y < r.to.y
      invariant r.from.y <= y <= r.to.y
      invariant SweptUpTo(Pixels(frame), g, r, middle, v, x, y)
    {
      ghost var before := Pixels(frame);
      RepairPixel(frame, r, middle, v, x, y);
      SweepStep(before, Pixels(frame), g, r, middle, v, x, y);
      y := y + 1;
    }
    ghost var cur := Pixels(frame);
    forall yy, xx | 0 <= yy < |g| && 0 <= xx < |g[0]|
      ensures cur[yy][xx] == Expected(g, r, middle, v, Point(xx, yy), x + 1, r.from.y)
    {
      assert cur[yy][xx] == Expected(g, r, middle, v, Point(xx, yy), x, y);
    }
  }

  /** The repair routine: columns from left to right, each column from top to
      bottom, every pixel of the rectangle overwritten in place by the first
      matching branch. The frame ends as the closed form says. */
  method ChangeFrame<T>(frame: array2<T>, r: Rect, middle: Point, v: Variant)
    requires FitsFrame(r, frame.Length0, frame.Length1)
    modifies frame
    ensures GridFits(old(Pixels(frame)), r)
    ensures Pixels(frame) == Repaired(old(Pixels(frame)), r, middle, v)
  {
    ghost var g := Pixels(frame);
    var x := r.from.x;
    while x < r.to.x
      invariant r.from.x <= x <= r.to.x
      invariant SweptUpTo(Pixels(frame), g, r, middle, v, x, r.from.y)
    {
      RepairColumn(frame, g, r, middle, v, x);
      x := x + 1;
    }
    ghost var h := Repaired(g, r, middle, v);
    forall yy | 0 <= yy < frame.Length0
      ensures Pixels(frame)[yy] == h[yy]
    {
      forall xx | 0 <= xx < frame.Length1
        ensures Pixels(frame)[yy][xx] == h[yy][xx]
      {
        assert Pixels(frame)[yy][xx] == Expected(g, r, middle, v, Point(xx, yy), x, r.from.y);
      }
    }
  }
}
