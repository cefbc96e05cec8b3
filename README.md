# Traffic-light distance by structure from motion, modelled in Dafny

This project models the structure-from-motion (SFM) distance pipeline of a
traffic-light detector (`part3/SFM.py`). Two consecutive camera frames each
come with detected traffic-light pixels. The current frame also comes with a
4x4 ego-motion matrix that maps the previous camera pose to the current one.
The pipeline:

1. normalizes pixels into camera coordinates using the focal length and the
   principal point;
2. splits the ego-motion into the rotation R, the focus of expansion (FOE)
   and the forward translation tZ;
3. rotates the previous points by R and projects them back onto the image
   plane;
4. for each current point, picks the rotated previous point nearest the
   epipolar line through the point and the FOE, with the first minimum
   winning ties;
5. triangulates a depth as |z_x + z_y| / 2 from an x-axis estimate and a
   y-axis estimate;
6. marks the point valid when the depth is positive, and places it in 3D
   along the viewing ray (the origin when invalid);
7. writes the matched indices, 3D locations and validity flags into the
   current frame's container, unless one of three guards skips the pair.

All numbers are Dafny `real`s. The focal length must be non-zero on every
call, since the source normalizes both frames before any guard. A forward
translation tZ = 0 gives an absent FOE rather than a division. The remaining
divisions are preconditions that the orchestrator asks for only when no guard
fires.

Files, one module each, following the components of the source:

- `Types.dfy`: `Option`, 2D and 3D points, `Abs`, and the matrix shape predicate.
- `Geometry.dfy`: `normalize`, `unnormalize` and `rotate`.
- `EgoMotion.dfy`: `decompose`.
- `Correspondence.dfy`: the epipolar line, the first-minimum scan and `find_corresponding_points`.
- `Triangulation.dfy`: `calc_dist`, one output entry per point, and `calc_3D_data`.
- `Pipeline.dfy`: the frame container class, `prepare_3D_data`, the guards and `calc_TFL_dist`.

The imperative parts of the source keep their form:

- `rotate`, `find_corresponding_points` and `calc_3D_data` are methods with
  loops. Each is proved against a specification function: `Rotated`,
  `MatchIndex` and `Triangulate`.
- `calc_TFL_dist` is a method that assigns the fields of a `Container`
  object. Its modifies frame is only the three result fields.
- `normalize`, `unnormalize`, `decompose` and `calc_dist` are functions.

Some consequences of the source that the model makes explicit:

- The first minimum is unique, so the matcher is deterministic
  (`FirstMinUnique`).
- On noise-free data, `calc_dist` returns the true depth in absolute value
  (`CalcDistExact`). So a point whose consistent depth is negative, that is,
  behind the camera, is reported with a positive depth and marked valid. The
  gate `Z > 0` rejects only estimates whose two axis depths cancel exactly.

## Model

| member | source | states |
|---|---|---|
| `Geometry.Normalize` | part3/SFM.py:44-47 | applies `NormalizePoint`, (pixel - pp) / focal, to each point: one output per input point, in order; each normalized point times the focal length is its pixel minus the principal point; empty input gives empty output |
| `Geometry.Unnormalize` | part3/SFM.py:49-52 | applies `UnnormalizePoint`, q * focal + pp, to each point: one output per input point, in order; for a non-zero focal length, normalizing each output gives back the input point |
| `Geometry.PointRoundTrip` | part3/SFM.py:44-52 | for focal != 0, the single-point conversions pixel to normalized and back, and normalized to pixel and back, are the identity |
| `Geometry.NormalizeRoundTrip` | part3/SFM.py:44-52 | for focal != 0, unnormalize after normalize and normalize after unnormalize are both the identity on point sequences |
| `Geometry.RotatePoint` | part3/SFM.py:66-69 | the result, lifted to (x', y', 1) and scaled by the rotated depth c, is R * (x, y, 1), so it is the central projection of the rotated ray |
| `Geometry.RotateIdentity` | part3/SFM.py:63-70 | with R the identity every point is projectable (c = 1) and rotate returns the points unchanged |
| `Geometry.Rotate` | part3/SFM.py:63-70 | the loop returns one point per input point, in input order, point i being the re-projection of R * (x_i, y_i, 1); the result equals the specification function `Rotated`, which maps `RotatePoint` over the points |
| `EgoMotion.Decompose` | part3/SFM.py:54-61 | R is the top-left 3x3 block of EM and tZ = EM[2][3]; the FOE is absent exactly when tZ = 0, and otherwise is the point whose lift scaled by tZ is the translation column (tX, tY, tZ) |
| `Correspondence.EpipolarLine` | part3/SFM.py:76-77 | the line y = m x + n passes through both the current point and the FOE |
| `Correspondence.Residual` | part3/SFM.py:81 | the residual is non-negative and zero exactly when the candidate lies on the line |
| `Correspondence.FirstMinIndex` | part3/SFM.py:78-84 | the index kept by the left-to-right scan that updates only on a strictly smaller value is in range, no value is smaller than its value, and every earlier value is strictly larger |
| `Correspondence.FirstMinUnique` | part3/SFM.py:78-84 | any index that is a first minimum is the one the scan returns, so the matcher is deterministic |
| `Correspondence.ScaledFirstMin` | part3/SFM.py:81-84 | dividing every distance by the same positive constant selects the same index |
| `Correspondence.MatchByPerpendicularDistance` | part3/SFM.py:81 | ranking by the perpendicular distance, the residual divided by the positive root of m*m + 1, selects the same candidate as ranking by the residual |
| `Correspondence.MatchIndex` | part3/SFM.py:72-85 | the matched index is in range for a non-empty candidate list |
| `Correspondence.FindCorrespondingPoint` | part3/SFM.py:72-85 | the returned index is in range and the returned point is the candidate at that index; its residual is <= every candidate's and < every earlier candidate's; the index is `MatchIndex` |
| `Triangulation.CalcDist` | part3/SFM.py:88-96 | combines the x-axis estimate `DepthPerX` (line 92) and the y-axis estimate `DepthPerY` (line 93) as their absolute sum over two; the combined depth is never negative, and it is zero exactly when the x and y estimates cancel |
| `Triangulation.DepthPerXConsistent` | part3/SFM.py:92 | the x-axis estimate returns Z for any observation whose x displacement times Z equals tZ times (foe.x - rot.x) |
| `Triangulation.DepthPerYConsistent` | part3/SFM.py:93 | the same for the y axis |
| `Triangulation.AxisDisplacement` | part3/SFM.py:92-93 | for a static point seen before and after a camera translation, the displacement on an axis is non-zero when the motion is not along that viewing ray, and it times Z equals tZ times (foe - rot) |
| `Triangulation.CalcDistExact` | part3/SFM.py:88-96 | on noise-free observations of a static point at depth Z, with no degenerate axis, the combined estimate is exactly abs(Z) |
| `Triangulation.TriangulatePoint` | part3/SFM.py:29-41 | the entry's index is the matcher's; valid iff the depth is > 0, iff the axis estimates do not cancel; the stored depth is then the estimate; the location's Z is >= 0 and is > 0 iff valid; an invalid entry is the origin; the location lies on the viewing ray Z * (x, y, 1) |
| `Triangulation.Triangulate` | part3/SFM.py:28-42 | one entry per current point, in current-point order |
| `Triangulation.Calc3DData` | part3/SFM.py:23-42 | the three output sequences have the length of the current points and are in that order; each index is in range; valid[i] iff location[i].z > 0; invalid entries are the origin; entry i is `TriangulatePoint` of current point i against the rotated previous points |
| `Pipeline.Guard` | part3/SFM.py:5-11 | the guards fire in order: abs(tZ) < 1e-5 first, then no previous points, then no current points; triangulation goes ahead only when none fires, and then tZ != 0 |
| `Pipeline.Prepare3DData` | part3/SFM.py:15-21 | both point sets are normalized in order and map back to the frames' pixels; R is the top-left block of the current EM, tZ = EM[2][3], the FOE is absent iff tZ = 0, and otherwise the FOE times tZ is (EM[0][3], EM[1][3]) |
| `Pipeline.CalcTflDist` | part3/SFM.py:3-13 | returns the current container; when a guard fires the container is unchanged; otherwise exactly its three result fields are set to the triangulation's indices, locations and flags; a previous container distinct from the current one is never written |

## Left out

- The detection front end in `main.py`, that is, convolution, peak search,
  kernel construction, image and JSON loading, plotting and argument
  parsing. These are library calls and I/O around the core.
- The `print` calls of `part3/SFM.py`. They are logging only. The guard
  that fires is given by `Pipeline.Guard` instead.
- IEEE floating point. Rounding is not modelled, and neither are the
  infinities and NaNs that numpy yields from a zero divisor. Apart from the
  division by tZ in `decompose` (next line), every division is a
  precondition instead:
  - a non-zero focal length;
  - a non-zero rotated depth for each previous point;
  - an epipolar line that is not vertical for each current point;
  - a matched point that differs from the current point on both axes.
- `decompose` divides by tZ before the orchestrator tests tZ. The model
  returns the FOE as `None` when tZ = 0 instead of dividing by zero.
- Correspondence.FindCorrespondingPoint: the loop compares the residual
  |m x + n - y| and omits the common divisor sqrt(m*m + 1), which the model
  cannot compute over the reals. `Correspondence.MatchByPerpendicularDistance`
  proves that dividing by it selects the same index. The `min_` the loop
  keeps is therefore the residual rather than the perpendicular distance.
- numpy array shapes. A point is a pair of reals, and `.size == 0` on an
  array of points is modelled as an empty sequence.
- `part3/SFM.py` does not define the container class; its fields follow how
  that file uses them. The three result attributes are `Option`s that are
  absent until a call sets them.
