/**
 * The convex_hull object of src/convex_hull.cpp and its top-level call
 * getConvexHull: collect the points into a scratch cloud, project that cloud
 * onto the ground plane into a second scratch cloud, build the hull, and
 * turn the single hull loop into the constraint system A * (x, y) <= b.
 */
module SupportPolygon {
  import opened PointCloud
  import opened Constraints

  /**
   * What the point-cloud library's hull routine hands back: the points on
   * the hull and the hull loops, each a cyclic list of indices into them.
   */
  datatype HullResult = HullResult(points: seq<Point>, loops: seq<seq<nat>>)

  /**
   * What the library is relied on to deliver whenever it reports a single
   * loop: indices into its own points, no more vertices than points.
   */
  predicate HullDelivers(h: HullResult)
  {
    |h.loops| == 1 ==> WellFormed(h.points, h.loops)
  }

  class ConvexHull {
    /** Kept for the projection's interface; it has no effect. */
    const ransacDistanceThr: real
    /** _pointCloud: the collected points. */
    var pointCloud: seq<Point>
    /** _projectedPointCloud: the collected points projected onto z = 0. */
    var projectedPointCloud: seq<Point>

    constructor ()
      ensures ransacDistanceThr == 0.001
      ensures pointCloud == [] && projectedPointCloud == []
    {
      ransacDistanceThr := 0.001;
      pointCloud := [];
      projectedPointCloud := [];
    }

    /**
     * fromSTDList2PCLPointCloud: one converted point is appended per list
     * element, in list order, after whatever the cloud already holds.
     */
    method FromStdListToPointCloud(points: seq<Vector>)
      modifies this`pointCloud
      ensures pointCloud == old(pointCloud) + ToCloud(points)
    {
      var i := 0;
      while i < |points|
        invariant 0 <= i <= |points|
        invariant pointCloud == old(pointCloud) + ToCloud(points[..i])
      {
        pointCloud := pointCloud + [FromKdlVector(points[i])];
        assert points[..i + 1][..i] == points[..i];
        i := i + 1;
      }
      assert points[..i] == points;
    }

    /** The hull the call computes: that of the collected and projected points. */
    ghost function HullOf(huller: seq<Point> -> HullResult, points: seq<Vector>): HullResult
      reads this
    {
      huller(ProjectCloud(pointCloud + ToCloud(points), ransacDistanceThr))
    }

    /**
     * getConvexHull. The hull routine of the point-cloud library is the
     * parameter huller. A and b are the caller's system; the system after
     * the call is returned as A', b'. When the hull has other than one loop
     * the call gives up: A and b stay as they were, and so do the scratch
     * clouds, which keep the points for the next call to append to. On
     * success A', b' hold the constraints of the hull and both clouds are
     * empty.
     */
    method GetConvexHull(points: seq<Vector>, huller: seq<Point> -> HullResult, A: array2<real>, b: array<real>)
      returns (A': array2<real>, b': array<real>)
      requires HullDelivers(HullOf(huller, points))
      modifies this`pointCloud, this`projectedPointCloud
      ensures var h := old(HullOf(huller, points));
        if |h.loops| != 1 then
          A' == A && b' == b &&
          pointCloud == old(pointCloud) + ToCloud(points) &&
          projectedPointCloud == ProjectCloud(pointCloud, ransacDistanceThr)
        else
          A'.Length0 == |h.points| && A'.Length1 == 2 && b'.Length == |h.points| &&
          Holds(A', b', Rows(h.points, h.loops)) &&
          pointCloud == [] && projectedPointCloud == []
    {
      FromStdListToPointCloud(points);
      projectedPointCloud := ProjectCloud(pointCloud, ransacDistanceThr);
      var hull := huller(projectedPointCloud);
      if |hull.loops| != 1 {
        A', b' := A, b;
        return;
      }
      A', b' := GetConstraints(hull.points, hull.loops);
      pointCloud := [];
      projectedPointCloud := [];
    }
  }
}
