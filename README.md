# Fingerprint minutiae and circular features, in Dafny

This project models two pieces of the `fplib` fingerprint library and proves
what they compute.

**Minutiae detection** (`src/fplib/minutae.py`, module `Minutiae` in
`minutiae.dfy`). `minutae()` walks over every interior pixel of a skeleton
image in row-major order. At each ridge pixel it computes the crossing number:
the sum of `blk[k1] * (1 - blk[k2])` over the eight edges of a closed walk
round the 3x3 block. The walk is top-left, left, bottom-left, bottom,
bottom-right, right, top-right, top, and back to top-left. Crossing number 1
gives a termination, a number above 2 a bifurcation. `_remove_border_points()`
then drops every point that has no ridge pixel somewhere to its left, above
it, to its right, or below it.

- The scan is the method `Detect`, built from `ScanRowInto` (the inner loop) and `ClassifyPixel` (the loop body).
- Border rejection is the method `RemoveBorderPoints`.
- Each of these is proved equal to a specification function: `Scan`, `ScanRow`, `PixelPoints`, `Detected` and `BorderKept`.
- The lemmas then prove the classification rules, interior-only output, completeness, strict row-major order, and the exact filtering rule.

**Circular feature encoder** (`src/fplib/feature.py`, module `Feature` in
`feature.dfy`).

- `_get_core()` is `GetCore`: the first `Core` point of the list.
- `_extract_circular()` is the method `ExtractCircular`, with its counting loop in `Tally`.
  - It computes each point's distance to the core, sizes the histogram at `floor(maxDist / b) + 1` rings, and counts each termination and bifurcation in ring `floor(dist / b)`.
  - It is proved equal to the specification function `CircularFeature`.
  - Lemmas prove the ring count, that every ring index is in range, that the counters add up to the points, and monotonicity in the bucket size.
- `extract()` is the method `Extract`, which dispatches on the method tag.

Distances are exact: a point's ring is the `k` with
`(k*b)^2 <= d2 < ((k+1)*b)^2`, where `d2` is the squared distance. For a
positive integer `b` this equals `int(norm / b)` as the source computes it.

Points where the code differs from a usual reading of it, and what the model follows:

- **Walk direction.** The crossing-number walk is commonly described clockwise. The index list at `src/fplib/minutae.py:38` goes the other way on screen: left comes before top. The model follows the code. `WalkDirectionIrrelevant` proves that both directions give the same sum for any pixel values, so the difference never changes a result.
- **Missing core.** The source's `_get_core` indexes `[0]` of an empty list when there is no core, so it raises an indexing error before the encoders' own "missing core point" check can run; that check is unreachable. The model reports both as `MissingCorePoint`.
- **Polar encoder.** `_extract_polar` calls `np.empty()` without a shape, so once a core is found it always fails. The model returns `PolarShapeMissing` there.

## Model

| member | source | states |
|---|---|---|
| Minutiae.TransitionsBound | src/fplib/minutae.py:48-49 | on a 0/1 block, the sum over the first n edges of the walk is at least 0 and at most (n + 1 - the pixel the n-th edge ends on) / 2 |
| Minutiae.EdgeSumCountsSteps | src/fplib/minutae.py:48-49 | on 0/1 values, the sum of the terms v[k] * (1 - v[k+1]) equals the number of ridge-to-background steps (a 1 followed by a 0) |
| Minutiae.CrossingNumberCountsSteps | src/fplib/minutae.py:47-49 | on a 0/1 block, the crossing number equals the number of ridge-to-background steps round the eight neighbours in walk order, that is, the number of ridges that leave the block |
| Minutiae.CrossingNumberRange | src/fplib/minutae.py:47-49 | on a 0/1 block the crossing number lies between 0 and 4 |
| Minutiae.CrossingNumberExpanded | src/fplib/minutae.py:38-49 | the crossing number is the sum tl(1-l) + l(1-bl) + bl(1-b) + b(1-br) + br(1-r) + r(1-tr) + tr(1-t) + t(1-tl) over the eight neighbours, with the centre never used |
| Minutiae.WalkDirectionIrrelevant | src/fplib/minutae.py:38 | walking the ring in the opposite (clockwise) direction gives the same crossing number for any pixel values |
| Minutiae.Detected | src/fplib/minutae.py:40-59 | every point the scan finds lies inside the image |
| Minutiae.ScanRowComplete | src/fplib/minutae.py:41-59 | the points of one row are in that row, in increasing column order, each correctly classified, and a column is reported iff it is a minutia |
| Minutiae.ScanComplete | src/fplib/minutae.py:40-59 | the points of the first rows are in row-major order, each correctly classified, and a pixel is reported iff it is a minutia in those rows |
| Minutiae.DetectedSound | src/fplib/minutae.py:40-59 | every reported point is interior and equals the ridge value; it is a termination iff its crossing number is 1 and a bifurcation iff it is above 2; it is never Core; its angle is None without an orientation field and the field's value otherwise |
| Minutiae.DetectedComplete | src/fplib/minutae.py:40-59 | a pixel is reported iff it is interior, equals the ridge value, and has crossing number 1 or above 2 |
| Minutiae.DetectedInScanOrder | src/fplib/minutae.py:40-41 | points come out in strictly increasing row-major order, so no pixel is reported twice |
| Minutiae.SmallGridYieldsNothing | src/fplib/minutae.py:40-41 | an image less than three pixels high or wide yields no point |
| Minutiae.NoRidgeYieldsNothing | src/fplib/minutae.py:42-43 | an image with no pixel equal to the ridge value yields no point |
| Minutiae.BorderKeptFilters | src/fplib/minutae.py:78-87 | border rejection returns a subsequence of its input, and a point is kept iff the ridge value occurs left of it in its row, above it in its column, right of it and below it |
| Minutiae.BorderKeptInOrder | src/fplib/minutae.py:79-86 | border rejection keeps a row-major list in row-major order |
| Minutiae.RemoveBorderPoints | src/fplib/minutae.py:74-87 | the loop returns exactly the border-rejection filter of its input list |
| Minutiae.ClassifyPixel | src/fplib/minutae.py:42-59 | one pixel gives no point iff it is not a minutia (off the ridge, or crossing number neither 1 nor above 2); a point it gives sits on that pixel, has the type its crossing number names, and carries the pixel's angle |
| Minutiae.ScanRowInto | src/fplib/minutae.py:41-59 | the inner loop appends exactly the points of row i, in column order, to the list so far |
| Minutiae.Detect | src/fplib/minutae.py:22-71 | without rejection the result is the full scan; with rejection it is the scan filtered by border rejection |
| Minutiae.DetectedAndKept | src/fplib/minutae.py:68-87 | after rejection the points are still in row-major order, and exactly the detected points with ridge on all four sides remain |
| Minutiae.StraightRidgeHasNoMinutiae | src/fplib/minutae.py:38-59 | a straight horizontal ridge through a 3x4 image yields no minutia |
| Minutiae.StubTipIsTermination | src/fplib/minutae.py:38-87 | the tip of a ridge stub in a 3x3 image is one termination with no angle, and border rejection drops it |
| Feature.GetCoreIsFirst | src/fplib/feature.py:6-7 | the core found is the first Core point of the list |
| Feature.GetCoreFails | src/fplib/feature.py:6-7 | the lookup fails iff the list has no Core point |
| Feature.GetCoreInList | src/fplib/feature.py:6-7 | a core that is found is a Core point of the list |
| Feature.ISqrtFrom | src/fplib/feature.py:33-34 | the integer part s of a distance's square root: s^2 <= d2 < (s + 1)^2 |
| Feature.RingIndex | src/fplib/feature.py:42 | the ring k of squared distance d2 satisfies (k*b)^2 <= d2 < ((k+1)*b)^2, that is k = floor(dist / b) |
| Feature.RingIndexUnique | src/fplib/feature.py:42 | only one k brackets d2 that way |
| Feature.RingIndexMonotone | src/fplib/feature.py:42 | a point further from the core never lands in a nearer ring |
| Feature.RingIndexShrinks | src/fplib/feature.py:42 | wider rings never give a larger ring index |
| Feature.Distances | src/fplib/feature.py:30-34 | there is one distance per point, the core included |
| Feature.SeqMax | src/fplib/feature.py:37 | the maximum distance is an element of the list and no element exceeds it |
| Feature.RingCountMeaning | src/fplib/feature.py:30-38 | there are n >= 1 rings with ((n-1)*b)^2 <= maxDist^2 < (n*b)^2, where maxDist is the largest core distance and some point attains it |
| Feature.RingIndexInRange | src/fplib/feature.py:37-42 | every point's ring index is below the ring count |
| Feature.RingCountShrinks | src/fplib/feature.py:37 | wider rings never give more rings |
| Feature.CountersMatchPoints | src/fplib/feature.py:39-42 | the termination counters sum to the number of terminations and the bifurcation counters to the number of bifurcations; all counters together sum to their total, so Core points are not counted |
| Feature.SingleTermination | src/fplib/feature.py:23-44 | a core and one termination at distance d give floor(d / b) + 1 rings, with a single 1 in the termination counter of the last ring and 0 everywhere else |
| Feature.Tally | src/fplib/feature.py:39-42 | starting from all-zero rings, the counting loop yields exactly the ring histogram |
| Feature.ExtractCircular | src/fplib/feature.py:23-44 | the encoder fails with MissingCorePoint iff the list has no core; otherwise it returns the ring histogram around the first core |
| Feature.Extract | src/fplib/feature.py:47-68 | an unknown tag fails as unsupported; "circular" without a bucket size fails as missing a parameter; "polar" fails, for a missing core or, once a core is found, at the shapeless allocation; "circular" gives the circular encoder's result; on success the tag is returned as the second component |

Both encoders take the minutiae list as an immutable value, so it is only
read, and their results are deterministic functions of their inputs.

## Left out

- The matplotlib plotting under the `verbose` flag (`src/fplib/minutae.py:61-66`) does not affect results and is not modelled.
- `_orientblk_angle` comes from `fplib.preprocess` and is not part of this model. The orientation field together with that lookup is a function parameter from pixel to angle, applied once per reported point.
- `_extract_polar`'s body (`src/fplib/feature.py:16-20`) allocates with `np.empty()` and no shape, which fails. The model keeps only its core lookup and that failure.
- Floating point: `np.linalg.norm` and division by a float bucket size are replaced by exact integer squared distances. Rounding in the float computation is not modelled.
- ExtractCircular: requires a positive integer bucket size. A float bucket size is not modelled; a zero or negative one, which makes the source divide by zero or index with negative rings, is excluded.
- Extract: requires a positive bucket size whenever the tag is "circular" and one is given, for the same reason. A `None` method tag, which makes the source's error message itself fail, is not modelled: the tag is a string.
- RemoveBorderPoints: requires every point to lie inside the image. The scan only produces such points; numpy's negative-index and out-of-range slicing for other coordinates is not modelled.
- Pixel values are unbounded integers. The wrap-around of `1 - blk[k2]` in a narrow unsigned numpy dtype, for pixel values above 1, is not modelled.
- The conversion of results to `np.array` and the dictionaries used as ring counters are modelled as sequences and the `Ring` record.
- Points given as 3-tuples, which the encoders pad with a `None` angle, are not modelled separately: every `Point` carries an optional angle.
- `feature.py` imports `MnType`, but `minutae.py` defines the enum as `Type`, so the import fails as written. The model uses a single `MinutiaType` for both.
- The source raises exceptions, and the model returns them as `Result` errors. The indexing error from `_get_core` and the "missing core point" exception are merged into `MissingCorePoint`.
