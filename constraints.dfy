/**
 * The constraint generator of src/convex_hull.cpp: every edge of a hull
 * loop becomes one row of the inequality system A * (x, y) <= b. The line
 * through the edge is oriented so that the origin (the centre of mass) is
 * on the "<=" side, and the right-hand side is shrunk by a safety margin.
 *
 * Doubles are modelled as reals, so every identity below holds exactly.
 */
module Constraints {
  import opened PointCloud

  /** The implicit line a*x + b*y + c = 0. */
  datatype Line = Line(a: real, b: real, c: real)

  function Eval(l: Line, p: Point): real
  {
    l.a * p.x + l.b * p.y + l.c
  }

  predicate OnLine(l: Line, p: Point)
  {
    Eval(l, p) == 0.0
  }

  function Negated(l: Line): Line
  {
    Line(-l.a, -l.b, -l.c)
  }

  /**
   * getLineCoefficients: the line through p0 and p1 (their x and y only).
   * Its normal (a, b) vanishes exactly when the two points share x and y;
   * LineThroughEndpoints states the rest of what the coefficients satisfy.
   */
  function LineCoefficients(p0: Point, p1: Point): (l: Line)
    ensures (l.a == 0.0 && l.b == 0.0) <==> (p0.x == p1.x && p0.y == p1.y)
  {
    var x1, x2, y1, y2 := p0.x, p1.x, p0.y, p1.y;
    var a := y1 - y2;
    var b := x2 - x1;
    Line(a, b, -b * y1 - a * x1)
  }

  /**
   * Both points lie on the line getLineCoefficients produces. Its normal
   * (a, b) is the edge direction turned by a right angle (orthogonal to it
   * and just as long), so it is zero only when the two points share x and
   * y; and c is the cross product of the two positions.
   */
  lemma LineThroughEndpoints(p0: Point, p1: Point)
    ensures var l := LineCoefficients(p0, p1);
      OnLine(l, p0) && OnLine(l, p1) &&
      l.a * (p1.x - p0.x) + l.b * (p1.y - p0.y) == 0.0 &&
      l.a * l.a + l.b * l.b == (p1.x - p0.x) * (p1.x - p0.x) + (p1.y - p0.y) * (p1.y - p0.y) &&
      l.c == p0.x * p1.y - p1.x * p0.y &&
      ((l.a == 0.0 && l.b == 0.0) <==> (p0.x == p1.x && p0.y == p1.y))
  {
  }

  /** Walking an edge backwards gives the same line with every coefficient negated. */
  lemma LineCoefficientsSwap(p0: Point, p1: Point)
    ensures LineCoefficients(p1, p0) == Negated(LineCoefficients(p0, p1))
  {
  }

  /** One row of A together with its entry of b: ax*x + ay*y <= rhs. */
  datatype Row = Row(ax: real, ay: real, rhs: real)

  function Dot(r: Row, p: Point): real
  {
    r.ax * p.x + r.ay * p.y
  }

  /** Two rows with the same normal give the same value at every point. */
  lemma DotSameNormal(r: Row, s: Row, p: Point)
    requires r.ax == s.ax && r.ay == s.ay
    ensures Dot(r, p) == Dot(s, p)
  {
  }

  predicate Satisfies(r: Row, p: Point)
  {
    Dot(r, p) <= r.rhs
  }

  /** The centre of mass, the origin of the frame the points are given in. */
  const Origin: Point := Point(0.0, 0.0, 0.0)

  lemma DotAtOrigin(r: Row)
    ensures Dot(r, Origin) == 0.0
  {
    assert Origin.x == 0.0 && Origin.y == 0.0;
    assert r.ax * 0.0 == 0.0 && r.ay * 0.0 == 0.0;
  }

  function Abs(x: real): real
  {
    if x < 0.0 then -x else x
  }

  /** The margin the feasible region is shrunk by (ch_boundary, 1e-2 in the source). */
  const BoundaryMargin: real := 0.01

  /** The sign rule: keep (a, b) with bound -c when c <= 0, else use (-a, -b) with bound c. */
  function OrientedRow(l: Line): (r: Row)
    ensures r.rhs == Abs(l.c) && 0.0 <= r.rhs
    ensures l.c <= 0.0 ==> (r.ax, r.ay) == (l.a, l.b)
    ensures l.c > 0.0 ==> (r.ax, r.ay) == (-l.a, -l.b)
  {
    if l.c <= 0.0 then Row(l.a, l.b, -l.c) else Row(-l.a, -l.b, l.c)
  }

  /** Every point of the line lies exactly on the boundary of the oriented row. */
  lemma OrientedRowOnBoundary(l: Line, p: Point)
    requires OnLine(l, p)
    ensures Dot(OrientedRow(l), p) == Abs(l.c)
  {
  }

  /**
   * For a line that misses the origin, the oriented row accepts exactly the
   * points on the origin's side of the line (the line included).
   */
  lemma OrientedRowFacesOrigin(l: Line, p: Point)
    requires l.c != 0.0
    ensures Satisfies(OrientedRow(l), p) <==> Eval(l, p) * Eval(l, Origin) >= 0.0
  {
    assert Eval(l, Origin) == l.c;
    var e := Eval(l, p);
    if l.c < 0.0 {
      assert Dot(OrientedRow(l), p) == e - l.c;
      assert e * l.c >= 0.0 <==> e <= 0.0 by {
        if e > 0.0 { assert e * l.c < 0.0; }
        if e < 0.0 { assert e * l.c > 0.0; }
      }
    } else {
      assert Dot(OrientedRow(l), p) == -(e - l.c);
      assert e * l.c >= 0.0 <==> e >= 0.0 by {
        if e > 0.0 { assert e * l.c > 0.0; }
        if e < 0.0 { assert e * l.c < 0.0; }
      }
    }
  }

  /**
   * The margin rule for a margin m: a bound within m of zero (|c| <= m)
   * becomes 0, any other bound is lowered by m.
   */
  function Shrink(r: Row, c: real, m: real): (s: Row)
    requires r.rhs == Abs(c) && 0.0 <= m
    ensures s.ax == r.ax && s.ay == r.ay
    ensures 0.0 <= s.rhs <= r.rhs
    ensures s.rhs == if r.rhs <= m then 0.0 else r.rhs - m
  {
    if Abs(c) <= m then r.(rhs := 0.0) else r.(rhs := r.rhs - m)
  }

  /** A larger margin never enlarges the feasible half-plane: its bound is never higher. */
  lemma ShrinkMonotone(r: Row, c: real, m1: real, m2: real, p: Point)
    requires r.rhs == Abs(c) && 0.0 <= m1 <= m2
    ensures Shrink(r, c, m2).rhs <= Shrink(r, c, m1).rhs
    ensures Satisfies(Shrink(r, c, m2), p) ==> Satisfies(Shrink(r, c, m1), p)
  {
    DotSameNormal(Shrink(r, c, m1), Shrink(r, c, m2), p);
  }

  /**
   * The row that getConstraints writes for the edge with line l: the
   * oriented normal, with a bound between 0 and |c|.
   */
  function EdgeRow(l: Line): (r: Row)
    ensures r.ax == OrientedRow(l).ax && r.ay == OrientedRow(l).ay
    ensures 0.0 <= r.rhs <= Abs(l.c)
  {
    Shrink(OrientedRow(l), l.c, BoundaryMargin)
  }

  /**
   * The margin rule in terms of c, and its consequences: the bound is never
   * negative and never above |c|, so the origin satisfies every row, and
   * every point the row accepts is also accepted before the shrink.
   */
  lemma EdgeRowBound(l: Line, p: Point)
    ensures EdgeRow(l).rhs == if Abs(l.c) <= BoundaryMargin then 0.0 else Abs(l.c) - BoundaryMargin
    ensures 0.0 <= EdgeRow(l).rhs <= Abs(l.c)
    ensures Satisfies(EdgeRow(l), Origin)
    ensures Satisfies(EdgeRow(l), p) ==> Satisfies(OrientedRow(l), p)
  {
    DotAtOrigin(EdgeRow(l));
    DotSameNormal(EdgeRow(l), OrientedRow(l), p);
  }

  /**
   * Every point of the edge's line yields A*p = |c|. When |c| exceeds the
   * margin such a point lies exactly the margin beyond the shrunk bound;
   * when it does not, it lies on or beyond the bound 0.
   */
  lemma EdgeRowOnLine(l: Line, p: Point)
    requires OnLine(l, p)
    ensures Dot(EdgeRow(l), p) == Abs(l.c)
    ensures Abs(l.c) > BoundaryMargin ==> Dot(EdgeRow(l), p) == EdgeRow(l).rhs + BoundaryMargin
    ensures Abs(l.c) <= BoundaryMargin ==> Dot(EdgeRow(l), p) >= EdgeRow(l).rhs
  {
    OrientedRowOnBoundary(l, p);
    DotSameNormal(EdgeRow(l), OrientedRow(l), p);
  }

  /** Every vertex index of a loop names a point of the hull. */
  predicate ValidLoop(pts: seq<Point>, vs: seq<nat>)
  {
    forall k :: 0 <= k < |vs| ==> vs[k] < |pts|
  }

  predicate ValidLoops(pts: seq<Point>, loops: seq<seq<nat>>)
  {
    forall i :: 0 <= i < |loops| ==> ValidLoop(pts, loops[i])
  }

  /** The number of vertices, and so of edges, over all loops. */
  function TotalVertices(loops: seq<seq<nat>>): nat
  {
    if loops == [] then 0 else TotalVertices(loops[..|loops| - 1]) + |loops[|loops| - 1]|
  }

  /**
   * What getConstraints needs of its input: valid indices, and no more
   * edges than hull points, since A and b get one row per hull point.
   */
  predicate WellFormed(pts: seq<Point>, loops: seq<seq<nat>>)
  {
    ValidLoops(pts, loops) && TotalVertices(loops) <= |pts|
  }

  /** The line through edge j of a loop: vertex j to vertex (j + 1) mod n. */
  function EdgeLine(pts: seq<Point>, vs: seq<nat>, j: nat): (l: Line)
    requires ValidLoop(pts, vs) && j < |vs|
    ensures (l.a == 0.0 && l.b == 0.0) <==>
      (pts[vs[j]].x == pts[vs[(j + 1) % |vs|]].x && pts[vs[j]].y == pts[vs[(j + 1) % |vs|]].y)
  {
    LineCoefficients(pts[vs[j]], pts[vs[(j + 1) % |vs|]])
  }

  /** The rows of one loop, one per edge, in traversal order. */
  function LoopRows(pts: seq<Point>, vs: seq<nat>): (rows: seq<Row>)
    requires ValidLoop(pts, vs)
    ensures |rows| == |vs|
  {
    seq(|vs|, j requires 0 <= j < |vs| => EdgeRow(EdgeLine(pts, vs, j)))
  }

  /** The whole system: the rows of every loop, loop after loop. */
  function Rows(pts: seq<Point>, loops: seq<seq<nat>>): (rows: seq<Row>)
    requires ValidLoops(pts, loops)
    ensures |rows| == TotalVertices(loops)
  {
    if loops == [] then []
    else
      var init := loops[..|loops| - 1];
      assert ValidLoops(pts, init) by {
        forall i | 0 <= i < |init| ensures ValidLoop(pts, init[i]) {
          assert init[i] == loops[i];
        }
      }
      Rows(pts, init) + LoopRows(pts, loops[|loops| - 1])
  }

  /** The vertices of the first loops never outnumber those of all loops. */
  lemma {:induction false} TotalVerticesPrefix(loops: seq<seq<nat>>, i: nat)
    requires i <= |loops|
    ensures TotalVertices(loops[..i]) <= TotalVertices(loops)
  {
    if i < |loops| {
      var init := loops[..|loops| - 1];
      assert init[..i] == loops[..i];
      TotalVerticesPrefix(init, i);
    } else {
      assert loops[..i] == loops;
    }
  }

  /**
   * Row z of the system is edge j of loop i, where z counts the vertices
   * of the loops before loop i plus j: the rows follow the traversal.
   */
  lemma {:induction false} RowsAt(pts: seq<Point>, loops: seq<seq<nat>>, i: nat, j: nat)
    requires ValidLoops(pts, loops)
    requires i < |loops| && j < |loops[i]|
    ensures TotalVertices(loops[..i]) + j < |Rows(pts, loops)|
    ensures Rows(pts, loops)[TotalVertices(loops[..i]) + j] == EdgeRow(EdgeLine(pts, loops[i], j))
  {
    var n := |loops|;
    var init := loops[..n - 1];
    assert ValidLoops(pts, init) by {
      forall k | 0 <= k < |init| ensures ValidLoop(pts, init[k]) {
        assert init[k] == loops[k];
      }
    }
    assert Rows(pts, loops) == Rows(pts, init) + LoopRows(pts, loops[n - 1]);
    if i == n - 1 {
      assert loops[..i] == init;
    } else {
      assert init[..i] == loops[..i];
      assert init[i] == loops[i];
      RowsAt(pts, init, i, j);
    }
  }

  /** Every row of the system has a bound that is not negative, so the origin is feasible. */
  lemma {:induction false} RowsAdmitOrigin(pts: seq<Point>, loops: seq<seq<nat>>)
    requires ValidLoops(pts, loops)
    ensures forall z :: 0 <= z < |Rows(pts, loops)| ==>
      0.0 <= Rows(pts, loops)[z].rhs && Satisfies(Rows(pts, loops)[z], Origin)
  {
    if loops != [] {
      var n := |loops|;
      var init := loops[..n - 1];
      assert ValidLoops(pts, init) by {
        forall k | 0 <= k < |init| ensures ValidLoop(pts, init[k]) {
          assert init[k] == loops[k];
        }
      }
      RowsAdmitOrigin(pts, init);
      var last := LoopRows(pts, loops[n - 1]);
      forall j | 0 <= j < |last| ensures 0.0 <= last[j].rhs && Satisfies(last[j], Origin) {
        EdgeRowBound(EdgeLine(pts, loops[n - 1], j), Origin);
      }
    }
  }

  /**
   * Both endpoints of edge j of loop i lie on the unshrunk boundary of its
   * row, and the margin moves that boundary inward.
   */
  lemma RowsEdgeEndpoints(pts: seq<Point>, loops: seq<seq<nat>>, i: nat, j: nat)
    requires ValidLoops(pts, loops)
    requires i < |loops| && j < |loops[i]|
    ensures var z := TotalVertices(loops[..i]) + j;
      var p0, p1 := pts[loops[i][j]], pts[loops[i][(j + 1) % |loops[i]|]];
      var c := EdgeLine(pts, loops[i], j).c;
      z < |Rows(pts, loops)| &&
      Dot(Rows(pts, loops)[z], p0) == Abs(c) == Dot(Rows(pts, loops)[z], p1) &&
      (Abs(c) > BoundaryMargin ==> Dot(Rows(pts, loops)[z], p0) == Rows(pts, loops)[z].rhs + BoundaryMargin)
  {
    RowsAt(pts, loops, i, j);
    var l := EdgeLine(pts, loops[i], j);
    LineThroughEndpoints(pts[loops[i][j]], pts[loops[i][(j + 1) % |loops[i]|]]);
    EdgeRowOnLine(l, pts[loops[i][j]]);
    EdgeRowOnLine(l, pts[loops[i][(j + 1) % |loops[i]|]]);
  }

  /** With a single hull loop the system is that loop's rows: one row per hull edge, in loop order. */
  lemma SingleLoopRows(pts: seq<Point>, vs: seq<nat>)
    requires ValidLoop(pts, vs)
    ensures Rows(pts, [vs]) == LoopRows(pts, vs)
    ensures |Rows(pts, [vs])| == |vs|
    ensures forall j :: 0 <= j < |vs| ==> Rows(pts, [vs])[j] == EdgeRow(EdgeLine(pts, vs, j))
  {
    assert [vs][..0] == [];
  }

  /** The square with corners (+-1, +-1) around the centre of mass, walked clockwise. */
  const Square: seq<Point> := [Point(1.0, 1.0, 0.0), Point(1.0, -1.0, 0.0), Point(-1.0, -1.0, 0.0), Point(-1.0, 1.0, 0.0)]

  /** For the square every edge line has |c| = 2, so every bound is 2 - 0.01. */
  lemma SquareRows()
    ensures Rows(Square, [[0, 1, 2, 3]]) ==
      [Row(2.0, 0.0, 1.99), Row(0.0, -2.0, 1.99), Row(-2.0, 0.0, 1.99), Row(0.0, 2.0, 1.99)]
  {
    SingleLoopRows(Square, [0, 1, 2, 3]);
    SquareFirstRows();
    SquareLastRows();
  }

  /** The rows of the square's right and bottom edges. */
  lemma SquareFirstRows()
    ensures LoopRows(Square, [0, 1, 2, 3])[0] == Row(2.0, 0.0, 1.99)
    ensures LoopRows(Square, [0, 1, 2, 3])[1] == Row(0.0, -2.0, 1.99)
  {
    SquareLines();
  }

  /** The rows of the square's left and top edges. */
  lemma SquareLastRows()
    ensures LoopRows(Square, [0, 1, 2, 3])[2] == Row(-2.0, 0.0, 1.99)
    ensures LoopRows(Square, [0, 1, 2, 3])[3] == Row(0.0, 2.0, 1.99)
  {
    SquareLines();
  }

  /** The four edge lines of the square: each has c = -2. */
  lemma SquareLines()
    ensures ValidLoop(Square, [0, 1, 2, 3])
    ensures EdgeLine(Square, [0, 1, 2, 3], 0) == Line(2.0, 0.0, -2.0)
    ensures EdgeLine(Square, [0, 1, 2, 3], 1) == Line(0.0, -2.0, -2.0)
    ensures EdgeLine(Square, [0, 1, 2, 3], 2) == Line(-2.0, 0.0, -2.0)
    ensures EdgeLine(Square, [0, 1, 2, 3], 3) == Line(0.0, 2.0, -2.0)
  {
    var vs: seq<nat> := [0, 1, 2, 3];
    assert 1 % 4 == 1 && 2 % 4 == 2 && 3 % 4 == 3 && 4 % 4 == 0;
    assert Square[vs[0]] == Point(1.0, 1.0, 0.0) && Square[vs[1]] == Point(1.0, -1.0, 0.0);
    assert Square[vs[2]] == Point(-1.0, -1.0, 0.0) && Square[vs[3]] == Point(-1.0, 1.0, 0.0);
  }

  /**
   * The square's system accepts exactly the points with |x| and |y| at most
   * 0.995: the origin is inside and (2, 2) is outside.
   */
  lemma SquareFeasible(p: Point)
    ensures (forall z :: 0 <= z < 4 ==> Satisfies(Rows(Square, [[0, 1, 2, 3]])[z], p))
        <==> Abs(p.x) <= 0.995 && Abs(p.y) <= 0.995
  {
    SquareRows();
    var rows := Rows(Square, [[0, 1, 2, 3]]);
    var inside := Satisfies(rows[0], p) && Satisfies(rows[1], p) && Satisfies(rows[2], p) && Satisfies(rows[3], p);
    assert Dot(rows[0], p) == 2.0 * p.x && Dot(rows[2], p) == -2.0 * p.x;
    assert Dot(rows[1], p) == -2.0 * p.y && Dot(rows[3], p) == 2.0 * p.y;
    assert inside <==> Abs(p.x) <= 0.995 && Abs(p.y) <= 0.995;
    assert (forall z :: 0 <= z < 4 ==> Satisfies(rows[z], p)) <==> inside by {
      if inside {
        forall z | 0 <= z < 4 ensures Satisfies(rows[z], p) {
          assert z == 0 || z == 1 || z == 2 || z == 3;
        }
      }
    }
  }

  /** A and b hold the given rows in their first |rows| rows. */
  ghost predicate Holds(A: array2<real>, b: array<real>, rows: seq<Row>)
    reads A, b
  {
    A.Length1 == 2 && |rows| <= A.Length0 && |rows| <= b.Length &&
    forall z :: 0 <= z < |rows| ==> A[z, 0] == rows[z].ax && A[z, 1] == rows[z].ay && b[z] == rows[z].rhs
  }

  /**
   * One step of getConstraints: row z gets the oriented normal of the line
   * and its bound, then the margin rule is applied to the bound.
   */
  method WriteRow(A: array2<real>, b: array<real>, z: nat, line: Line)
    requires A.Length1 == 2 && z < A.Length0 && z < b.Length
    modifies A, b
    ensures A[z, 0] == EdgeRow(line).ax && A[z, 1] == EdgeRow(line).ay && b[z] == EdgeRow(line).rhs
    ensures forall r, c :: 0 <= r < A.Length0 && 0 <= c < 2 && r != z ==> A[r, c] == old(A[r, c])
    ensures forall r :: 0 <= r < b.Length && r != z ==> b[r] == old(b[r])
  {
    if line.c <= 0.0 {
      A[z, 0] := line.a;
      A[z, 1] := line.b;
      b[z] := -line.c;
    } else {
      A[z, 0] := -line.a;
      A[z, 1] := -line.b;
      b[z] := line.c;
    }
    var chBoundary := BoundaryMargin;
    if Abs(line.c) <= chBoundary {
      b[z] := 0.0;
    } else {
      b[z] := b[z] - chBoundary;
    }
  }

  /**
   * getConstraints: A and b are resized to one row per hull point (here:
   * allocated at that size), then every edge of every loop is written into
   * row z, z counting up from 0. Rows past the last edge are not written.
   */
  method GetConstraints(pts: seq<Point>, loops: seq<seq<nat>>) returns (A: array2<real>, b: array<real>)
    requires WellFormed(pts, loops)
    ensures A.Length0 == |pts| && A.Length1 == 2 && b.Length == |pts|
    ensures Holds(A, b, Rows(pts, loops))
  {
    A := new real[|pts|, 2];
    b := new real[|pts|];
    var z := 0;
    var i := 0;
    while i < |loops|
      invariant 0 <= i <= |loops|
      invariant z == TotalVertices(loops[..i])
      invariant Holds(A, b, Rows(pts, loops[..i]))
    {
      var vs := loops[i];
      ghost var before := Rows(pts, loops[..i]);
      ghost var rows := LoopRows(pts, vs);
      TotalVerticesPrefix(loops, i + 1);
      assert loops[..i + 1][..i] == loops[..i];
      var j := 0;
      while j < |vs|
        invariant 0 <= j <= |vs|
        invariant z == TotalVertices(loops[..i]) + j
        invariant Holds(A, b, before + rows[..j])
      {
        var k := (j + 1) % |vs|;
        WriteRow(A, b, z, LineCoefficients(pts[vs[j]], pts[vs[k]]));
        assert rows[..j + 1] == rows[..j] + [rows[j]];
        z := z + 1;
        j := j + 1;
      }
      assert rows[..j] == rows;
      i := i + 1;
    }
    assert loops[..i] == loops;
  }
}
