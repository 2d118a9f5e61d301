# Support-polygon constraints of the coman robot utilities

This project models the support-polygon constraint generator of the
`convex_hull` utility (`src/convex_hull.cpp`). The robot's candidate contact
points arrive as 3D vectors relative to the centre of mass. The utility then:

1. collects them into a scratch point cloud;
2. projects that cloud onto the ground plane z = 0 into a second scratch cloud;
3. asks the point-cloud library for the convex hull;
4. gives up unless the hull is exactly one loop;
5. turns every hull edge into one row of the system A * (x, y) <= b.

Each row comes from the edge's line a*x + b*y + c = 0. The sign of c orients
the row so that the origin is on the feasible side. The bound |c| is then
shrunk by the margin 0.01, or set to 0 when |c| <= 0.01.

Files and modules:

- `point_cloud.dfy` (`PointCloud`) holds points, the vector-to-point
  conversion, the list-to-cloud copy and the projection. These are pure
  functions and lemmas.
- `constraints.dfy` (`Constraints`) holds:
  - the line coefficients, the sign rule and the margin rule;
  - the specification `Rows` of the whole system, with lemmas about it;
  - `GetConstraints`, a method with nested loops that writes the rows into
    an `array2<real>` A and an `array<real>` b, proved to write exactly `Rows`.
- `support_polygon.dfy` (`SupportPolygon`) has the class `ConvexHull`. Its two
  scratch clouds are `seq` fields. It also has the orchestration
  `GetConvexHull`, with the failure branch (early return) and the success
  branch (constraints, then both clouds cleared).

Modelling decisions:

- Numbers are modelled as `real`: the kinematics vectors' doubles, the
  point cloud's single-precision floats and the doubles of A and b alike. So
  every identity holds exactly. The margin `1e-2` is the real 0.01.
- The library's hull routine is the function-typed parameter `huller` of
  `GetConvexHull`. What the model relies on the library for is its
  precondition `HullDelivers`: when it reports one loop, every index names one
  of its hull points, and there are no more vertices than hull points.
- `yarp::sig::Matrix::resize` and `Vector::resize` are modelled by allocating
  A and b at the new size (`GetConstraints` returns them). `GetConvexHull`
  takes the caller's A and b and returns the system after the call. On failure
  it returns the very same arrays, which it has not touched. What this leaves
  out is listed under "Left out".
- `pcl::ProjectInliers::filter` overwrites its output cloud. So the projected
  cloud is replaced on every call, while `_pointCloud` is appended to.

Behaviour of the code that a reader might not expect, modelled as written:

- On a hull with other than one loop, the code leaves A and b as they were.
  It does not empty them. It also does not clear the scratch clouds, so the
  next call appends its points to the stale ones (`GetConvexHull` states
  this, and `ProjectCloudConcat` shows the stale points are projected again).
- A and b are sized by the number of hull points, not by the number of
  edges. `GetConstraints` requires that the loops hold no more vertices than
  there are hull points. Rows past the last edge are not written.
- The margin is a fixed constant in the code. `Shrink` takes it as a
  parameter only for the monotonicity lemma. `EdgeRow` and `WriteRow` use the
  constant.

## Model

| member | source | states |
|---|---|---|
| `PointCloud.FromKdlVector` | src/convex_hull.cpp:71-78 | the point has the vector's x, y and z; `FromKdlVectorLossless` states that no two vectors share a point |
| `PointCloud.FromKdlVectorLossless` | src/convex_hull.cpp:71-78 | the vector-to-point conversion keeps x, y and z, so two vectors convert to the same point exactly when they are equal |
| `PointCloud.ToCloud` | src/convex_hull.cpp:80-84 | converting a point list yields one cloud point per list element |
| `PointCloud.ToCloudAt` | src/convex_hull.cpp:80-84 | the i-th cloud point is the conversion of the i-th list element (list order kept) |
| `PointCloud.ProjectPoint` | src/convex_hull.cpp:137-143 | projection onto the plane (0,0,1,0) gives a point on that plane which differs from the input only along the plane's normal |
| `PointCloud.ProjectPointIdempotent` | src/convex_hull.cpp:158-162 | a point already on the ground plane is left unchanged, so projecting twice equals projecting once |
| `PointCloud.ProjectCloud` | src/convex_hull.cpp:132-163 | the projected cloud has as many points as the input, in the same order; each keeps its x and y and gets z = 0 |
| `PointCloud.ProjectCloudIdempotent` | src/convex_hull.cpp:132-163 | projecting an already projected cloud changes nothing |
| `PointCloud.ProjectCloudConcat` | src/convex_hull.cpp:41-44 | projecting stale points followed by new ones equals projecting each group and concatenating |
| `Constraints.LineCoefficients` | src/convex_hull.cpp:86-96 | the normal (a, b) of the line is zero exactly when the two points share x and y; `LineThroughEndpoints` states that both points lie on the line |
| `Constraints.LineThroughEndpoints` | src/convex_hull.cpp:86-96 | both points satisfy a*x + b*y + c = 0; (a, b) is orthogonal to the edge and as long as it, so it is zero exactly when the points share x and y; c = x1*y2 - x2*y1 |
| `Constraints.LineCoefficientsSwap` | src/convex_hull.cpp:93-95 | swapping the two points negates a, b and c |
| `Constraints.OrientedRow` | src/convex_hull.cpp:113-121 | the oriented row's bound is abs(c), which is never negative; its normal is (a, b) when c <= 0 and (-a, -b) when c > 0 |
| `Constraints.OrientedRowOnBoundary` | src/convex_hull.cpp:112-121 | every point of the edge's line satisfies A[z]*p = abs(c), so it lies on the boundary of the unshrunk row |
| `Constraints.OrientedRowFacesOrigin` | src/convex_hull.cpp:113-121 | when c is not 0, the unshrunk row accepts exactly the points on the origin's side of the line (line included) |
| `Constraints.Shrink` | src/convex_hull.cpp:122-126 | the margin rule keeps the normal; the bound becomes 0 when it is within the margin, else it is lowered by the margin; it stays between 0 and the unshrunk bound |
| `Constraints.ShrinkMonotone` | src/convex_hull.cpp:122-126 | a larger margin never raises the bound, so its feasible half-plane is contained in that of a smaller margin |
| `Constraints.EdgeRow` | src/convex_hull.cpp:113-126 | the row written for an edge has the oriented normal and a bound between 0 and abs(c); `EdgeRowBound` and `EdgeRowOnLine` state the margin rule exactly |
| `Constraints.EdgeRowBound` | src/convex_hull.cpp:122-126 | b[z] = 0 when abs(c) <= 0.01, else abs(c) - 0.01; so 0 <= b[z] <= abs(c), the origin satisfies the row, and every point the shrunk row accepts is accepted by the unshrunk one |
| `Constraints.EdgeRowOnLine` | src/convex_hull.cpp:112-126 | every point of the edge's line gives A[z]*p = abs(c); when abs(c) > 0.01 that is exactly b[z] + 0.01 (the margin moves the boundary inward), otherwise it is at least b[z] |
| `Constraints.EdgeLine` | src/convex_hull.cpp:111-112 | the line of edge j runs from vertex j to vertex (j + 1) mod n of the loop, and its normal is zero exactly when those two vertices share x and y; `RowsAt` ties it to the row's index |
| `Constraints.LoopRows` | src/convex_hull.cpp:109-112 | one loop of n vertices yields n rows, for the edges j to (j+1) mod n |
| `Constraints.Rows` | src/convex_hull.cpp:105-129 | the system has exactly one row per loop vertex over all loops, with nothing merged and nothing dropped |
| `Constraints.RowsAt` | src/convex_hull.cpp:105-128 | row z, where z is the vertex count of the earlier loops plus j, is the row of edge j to (j+1) mod n of loop i; the rows follow the traversal, loop by loop |
| `Constraints.RowsAdmitOrigin` | src/convex_hull.cpp:113-126 | every b[z] of the system is non-negative, and the origin satisfies every row |
| `Constraints.RowsEdgeEndpoints` | src/convex_hull.cpp:109-126 | both endpoints of the edge behind row z give A[z]*p = abs(c), which is b[z] + 0.01 when abs(c) > 0.01 |
| `Constraints.SingleLoopRows` | src/convex_hull.cpp:106-112 | with a single hull loop, the system is that loop's rows, one per hull edge, in loop order |
| `Constraints.SquareLines` | src/convex_hull.cpp:86-96 | the four edge lines of the square with corners (+-1, +-1) all have c = -2 |
| `Constraints.SquareFirstRows` | src/convex_hull.cpp:113-126 | the rows for the square's first two edges are (2, 0) and (0, -2), each with bound 1.99 |
| `Constraints.SquareLastRows` | src/convex_hull.cpp:113-126 | the rows for the square's last two edges are (-2, 0) and (0, 2), each with bound 1.99 |
| `Constraints.SquareRows` | src/convex_hull.cpp:105-129 | the square's full system is those four rows, all with bound 2 - 0.01 |
| `Constraints.SquareFeasible` | src/convex_hull.cpp:105-129 | the square's system accepts exactly the points with abs(x) and abs(y) at most 0.995: the origin is inside and (2, 2) is outside |
| `Constraints.WriteRow` | src/convex_hull.cpp:113-126 | writing one row stores the oriented, shrunk row at index z of A and b and leaves every other entry unchanged |
| `Constraints.GetConstraints` | src/convex_hull.cpp:98-130 | A is hull-points x 2 and b has one entry per hull point; their first rows hold exactly `Rows` of the hull, written in traversal order through the running counter z |
| `SupportPolygon.ConvexHull.constructor` | src/convex_hull.cpp:26-32 | the threshold is 0.001 and both scratch clouds start empty |
| `SupportPolygon.ConvexHull.FromStdListToPointCloud` | src/convex_hull.cpp:80-84 | the cloud becomes its old contents followed by one converted point per list element, in list order (no clear) |
| `SupportPolygon.ConvexHull.GetConvexHull` | src/convex_hull.cpp:39-69 | on a hull with other than one loop: A and b are returned unchanged, the scratch cloud keeps the appended points and the projected cloud is their projection. On a single loop: A and b hold `Rows` of the hull, and both scratch clouds are empty |

## Left out

- The convex-hull reconstruction of the point-cloud library (`pcl::ConvexHull::reconstruct`) is a foreign call. It is the parameter `huller`; only its index validity is relied on, as a precondition.
- The internals of `pcl::ProjectInliers` are not modelled. Only its effect for the fixed plane (0, 0, 1, 0) is: z becomes 0, and x, y and the order are kept. The commented-out RANSAC plane segmentation is not modelled, and the distance threshold has no effect.
- The contents of rows of A and b past the last edge are not stated. Nothing in the code writes them, and what the resize leaves there belongs to the linear-algebra library.
- Floating-point rounding is not modelled: the comparisons `c <= 0` and `fabs(c) <= 1e-2`, and the bounds, are exact on reals.
- PointCloud.FromKdlVectorLossless: the conversion narrows the vector's doubles to the point's single-precision floats, which is not modelled. The conversion is lossless only in the real-valued model; in the source two distinct vectors can round to the same point.
- SupportPolygon.ConvexHull.GetConvexHull: the caller's A and b are not resized in place. The model allocates new arrays and returns them, so the caller's arrays are provably untouched even on success. In the source they are resized and overwritten, and any alias of them sees the new system.
- The 32-bit unsigned loop counters and indices are unbounded naturals. No overflow is possible under the precondition, because z stays below the number of hull points.
- `getSupportPolygonPoints` is not modelled. It is rigid-body frame algebra over robot-model queries (link poses, centre of mass), which are foreign calls with floating-point kinematics.
- `printIndexAndPointsInfo` and the `ROS_ERROR` / `ROS_WARN` / `ROS_INFO` calls are logging output and are not modelled.
- The YARP chain interface, the random test helpers, the quaternion tests and the coman wrapper class hold no part of the constraint generator (hardware I/O, test scaffolding, a constructor-only subclass).
