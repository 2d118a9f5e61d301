/**
 * Points and point clouds of the support-polygon generator
 * (src/convex_hull.cpp): the conversion of a kinematics-library vector into
 * a point-cloud point, the copy of a point list into a cloud, and the
 * projection of a cloud onto the ground plane z = 0.
 *
 * Coordinates are modelled as reals: the kinematics library's doubles and
 * the point cloud's single-precision floats alike, so the narrowing from
 * one to the other is not modelled.
 */
module PointCloud {

  /** A KDL::Vector: a position in some reference frame. */
  datatype Vector = Vector(x: real, y: real, z: real)

  /** A pcl::PointXYZ: one point of a point cloud. */
  datatype Point = Point(x: real, y: real, z: real)

  /** fromKDLVector2PCLPointXYZ: a field-by-field copy. */
  function FromKdlVector(v: Vector): (p: Point)
    ensures p.x == v.x && p.y == v.y && p.z == v.z
  {
    Point(v.x, v.y, v.z)
  }

  /**
   * On reals the conversion keeps every coordinate, so it loses nothing.
   * (The source narrows doubles to floats here, which this does not model.)
   */
  lemma FromKdlVectorLossless(u: Vector, v: Vector)
    ensures FromKdlVector(v).x == v.x && FromKdlVector(v).y == v.y && FromKdlVector(v).z == v.z
    ensures FromKdlVector(u) == FromKdlVector(v) <==> u == v
  {
  }

  /** The cloud holding one converted point per vector, in list order. */
  function ToCloud(vs: seq<Vector>): (cloud: seq<Point>)
    ensures |cloud| == |vs|
  {
    if vs == [] then [] else ToCloud(vs[..|vs| - 1]) + [FromKdlVector(vs[|vs| - 1])]
  }

  /** The i-th point of the cloud is the conversion of the i-th vector. */
  lemma {:induction false} ToCloudAt(vs: seq<Vector>, i: nat)
    requires i < |vs|
    ensures ToCloud(vs)[i] == FromKdlVector(vs[i])
  {
    if i < |vs| - 1 {
      ToCloudAt(vs[..|vs| - 1], i);
    }
  }

  /** The coefficients (a, b, c, d) of the plane a*x + b*y + c*z + d = 0. */
  datatype Plane = Plane(a: real, b: real, c: real, d: real)

  /** The plane every cloud is projected onto: normal (0, 0, 1), offset 0. */
  const GroundPlane: Plane := Plane(0.0, 0.0, 1.0, 0.0)

  predicate OnPlane(pl: Plane, p: Point)
  {
    pl.a * p.x + pl.b * p.y + pl.c * p.z + pl.d == 0.0
  }

  /** The point reached from p by moving t times the normal of pl. */
  function AlongNormal(pl: Plane, p: Point, t: real): Point
  {
    Point(p.x + t * pl.a, p.y + t * pl.b, p.z + t * pl.c)
  }

  /**
   * The orthogonal projection of one point onto GroundPlane. The result lies
   * on the plane and differs from the point only along the plane's normal.
   */
  function ProjectPoint(p: Point): (q: Point)
    ensures OnPlane(GroundPlane, q)
    ensures exists t: real :: q == AlongNormal(GroundPlane, p, t)
  {
    var q := Point(p.x, p.y, 0.0);
    assert q == AlongNormal(GroundPlane, p, -p.z);
    q
  }

  /** A point already on the ground plane is left where it is. */
  lemma ProjectPointIdempotent(p: Point)
    ensures OnPlane(GroundPlane, p) ==> ProjectPoint(p) == p
    ensures ProjectPoint(ProjectPoint(p)) == ProjectPoint(p)
  {
  }

  /**
   * projectPCL2Plane for its fixed plane (0, 0, 1, 0): every point keeps
   * its x and y and gets z = 0, the count and the order are kept. The
   * RANSAC distance threshold is passed through but has no effect.
   */
  function ProjectCloud(cloud: seq<Point>, ransacDistanceThr: real): (projected: seq<Point>)
    ensures |projected| == |cloud|
    ensures forall i :: 0 <= i < |cloud| ==>
      projected[i].x == cloud[i].x && projected[i].y == cloud[i].y && projected[i].z == 0.0
  {
    if cloud == [] then []
    else ProjectCloud(cloud[..|cloud| - 1], ransacDistanceThr) + [ProjectPoint(cloud[|cloud| - 1])]
  }

  /** Projecting an already projected cloud changes nothing. */
  lemma ProjectCloudIdempotent(cloud: seq<Point>, ransacDistanceThr: real)
    ensures ProjectCloud(ProjectCloud(cloud, ransacDistanceThr), ransacDistanceThr)
         == ProjectCloud(cloud, ransacDistanceThr)
  {
    var once := ProjectCloud(cloud, ransacDistanceThr);
    var twice := ProjectCloud(once, ransacDistanceThr);
    assert forall i :: 0 <= i < |once| ==> twice[i] == once[i];
  }

  /**
   * Projecting two clouds one after the other is projecting them joined; in
   * particular points left over from an earlier call are projected again.
   */
  lemma ProjectCloudConcat(stale: seq<Point>, added: seq<Point>, ransacDistanceThr: real)
    ensures ProjectCloud(stale + added, ransacDistanceThr)
         == ProjectCloud(stale, ransacDistanceThr) + ProjectCloud(added, ransacDistanceThr)
  {
    var whole := ProjectCloud(stale + added, ransacDistanceThr);
    var parts := ProjectCloud(stale, ransacDistanceThr) + ProjectCloud(added, ransacDistanceThr);
    forall i | 0 <= i < |whole| ensures whole[i] == parts[i] {
      if i >= |stale| {
        assert (stale + added)[i] == added[i - |stale|];
      }
    }
  }
}
