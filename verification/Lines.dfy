/** Bresenham's line as arithmetic: which pixel each step plots. */
module Lines {
  import opened Arithmetic

  datatype Line = Line(x1: int, y1: int, x2: int, y2: int)

  function Abs(a: int): nat { if a < 0 then -a else a }

  function Sign(a: int): int { if a > 0 then 1 else -1 }

  predicate Steep(l: Line) { Abs(l.y2 - l.y1) > Abs(l.x2 - l.x1) }

  /** The longer and the shorter extent. */
  function Major(l: Line): nat { if Steep(l) then Abs(l.y2 - l.y1) else Abs(l.x2 - l.x1) }

  function Minor(l: Line): nat { if Steep(l) then Abs(l.x2 - l.x1) else Abs(l.y2 - l.y1) }

  /** The minor offset at major offset i: i * dy / dx rounded half up. */
  function Offset(dx: nat, dy: nat, i: nat): nat { if dx == 0 then 0 else (2 * dy * i + dx) / (2 * dx) }

  /** The pixel at major offset i. */
  function Point(l: Line, i: nat): (int, int) {
    var m := Offset(Major(l), Minor(l), i);
    if Steep(l) then (l.x1 + Sign(l.x2 - l.x1) * m, l.y1 + Sign(l.y2 - l.y1) * i)
    else (l.x1 + Sign(l.x2 - l.x1) * i, l.y1 + Sign(l.y2 - l.y1) * m)
  }

  /** m is the offset at i, without division. */
  ghost predicate IsOffset(dx: nat, dy: nat, i: nat, m: int) { 0 <= 2 * dy * i + dx - 2 * dx * m < 2 * dx }

  lemma OffsetIs(dx: nat, dy: nat, i: nat, m: nat)
    requires dx > 0
    ensures IsOffset(dx, dy, i, m) <==> m == Offset(dx, dy, i)
  {
    var n, d := 2 * dy * i + dx, 2 * dx;
    assert n == d * (n / d) + n % d;
    if IsOffset(dx, dy, i, m) { ModUnique(n, d, m, n - d * m); }
  }

  /** The walk ends at the end point. */
  lemma LineEnds(l: Line)
    ensures Point(l, 0) == (l.x1, l.y1) && Point(l, Major(l)) == (l.x2, l.y2)
  {
    hide Offset;
    var dx, dy := Major(l), Minor(l);
    if dx == 0 {
      NoOffset(dy, 0);
    } else {
      OffsetIs(dx, dy, 0, 0);
      assert 2 * dy * dx + dx - 2 * dx * dy == dx;
      OffsetIs(dx, dy, dx, dy);
    }
  }

  lemma NoOffset(dy: nat, i: nat)
    ensures Offset(0, dy, i) == 0
  {
  }

  /** What the error term does in one step: the minor offset grows by at most one. */
  lemma OffsetStep(dx: nat, dy: nat, i: nat, m: nat, e: int)
    requires 0 < dx && dy <= dx && IsOffset(dx, dy, i, m) && e == 2 * dy * (i + 1) - dx - 2 * dx * m
    ensures e - 2 * dx < 0
    ensures if e >= 0 then IsOffset(dx, dy, i + 1, m + 1) else IsOffset(dx, dy, i + 1, m)
    ensures e >= 0 ==> e - 2 * dx == 2 * dy * (i + 1) - dx - 2 * dx * (m + 1)
  {
    assert 2 * dy * (i + 1) == 2 * dy * i + 2 * dy;
    assert 2 * dx * (m + 1) == 2 * dx * m + 2 * dx;
  }

  // The three variables of the walk when i steps are done.

  function MajorSign(l: Line): int { if Steep(l) then Sign(l.y2 - l.y1) else Sign(l.x2 - l.x1) }

  function MinorSign(l: Line): int { if Steep(l) then Sign(l.x2 - l.x1) else Sign(l.y2 - l.y1) }

  function MajorAt(l: Line, i: nat): int { (if Steep(l) then l.y1 else l.x1) + MajorSign(l) * i }

  function MinorAt(l: Line, i: nat): int {
    (if Steep(l) then l.x1 else l.y1) + MinorSign(l) * Offset(Major(l), Minor(l), i)
  }

  function ErrorAt(l: Line, i: nat): int {
    2 * Minor(l) * (i + 1) - Major(l) - 2 * Major(l) * Offset(Major(l), Minor(l), i)
  }

  lemma WalkPlots(l: Line, i: nat)
    ensures Point(l, i) == if Steep(l) then (MinorAt(l, i), MajorAt(l, i)) else (MajorAt(l, i), MinorAt(l, i))
  {
    hide Offset;
  }

  lemma WalkStarts(l: Line)
    ensures MajorAt(l, 0) == (if Steep(l) then l.y1 else l.x1) && MinorAt(l, 0) == (if Steep(l) then l.x1 else l.y1)
    ensures ErrorAt(l, 0) == 2 * Minor(l) - Major(l)
  {
    hide Offset;
    if Major(l) == 0 { NoOffset(Minor(l), 0); } else { OffsetIs(Major(l), Minor(l), 0, 0); }
  }

  /** From one step to the next: the minor coordinate moves at most once. */
  lemma WalkStep(l: Line, i: nat)
    requires i < Major(l)
    ensures var (e, d) := (ErrorAt(l, i), 2 * Major(l));
            && e - d < 0
            && MajorAt(l, i + 1) == MajorAt(l, i) + MajorSign(l)
            && MinorAt(l, i + 1) == (if e >= 0 then MinorAt(l, i) + MinorSign(l) else MinorAt(l, i))
            && ErrorAt(l, i + 1) == (if e >= 0 then e - d else e) + 2 * Minor(l)
  {
    hide Offset, IsOffset;
    var dx, dy := Major(l), Minor(l);
    var m := Offset(dx, dy, i);
    OffsetIs(dx, dy, i, m);
    OffsetStep(dx, dy, i, m, ErrorAt(l, i));
    OffsetIs(dx, dy, i + 1, m);
    OffsetIs(dx, dy, i + 1, m + 1);
    assert 2 * dy * (i + 2) == 2 * dy * (i + 1) + 2 * dy;
    assert 2 * dx * (m + 1) == 2 * dx * m + 2 * dx;
    assert MinorSign(l) * (m + 1) == MinorSign(l) * m + MinorSign(l);
    assert MajorSign(l) * (i + 1) == MajorSign(l) * i + MajorSign(l);
  }

  /** The pixels form a connected path: each is a neighbour of the one before. */
  lemma LineIsConnected(l: Line, i: nat)
    requires i < Major(l)
    ensures Abs(Point(l, i + 1).0 - Point(l, i).0) <= 1 && Abs(Point(l, i + 1).1 - Point(l, i).1) <= 1
    ensures Point(l, i + 1) != Point(l, i)
  {
    hide Offset;
    var dx, dy := Major(l), Minor(l);
    var m, m' := Offset(dx, dy, i), Offset(dx, dy, i + 1);
    OffsetIs(dx, dy, i, m);
    OffsetStep(dx, dy, i, m, 2 * dy * (i + 1) - dx - 2 * dx * m);
    OffsetIs(dx, dy, i + 1, m);
    OffsetIs(dx, dy, i + 1, m + 1);
  }

  /** The first n pixels of the line. */
  ghost predicate Among(l: Line, n: nat, px: int, py: int) {
    exists i: nat :: i < n && Point(l, i) == (px, py)
  }

  ghost predicate OnLine(l: Line, px: int, py: int) { Among(l, Major(l) + 1, px, py) }

  lemma AmongNext(l: Line, n: nat, px: int, py: int)
    ensures Among(l, n + 1, px, py) <==> Among(l, n, px, py) || Point(l, n) == (px, py)
  {
    hide Point;
  }

  lemma AmongNone(l: Line, px: int, py: int)
    ensures !Among(l, 0, px, py)
  {
  }
}
