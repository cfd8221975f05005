/** Crossing-number minutiae detection on a ridge skeleton image, followed by
    the rejection of points whose ridge runs out to the image border. */
module Minutiae {

  datatype Option<+T> = None | Some(value: T)

  /** The kind of a minutia point. The detector only ever produces the last two. */
  datatype MinutiaType = Core | Bifurcation | Termination

  /** A local ridge orientation, as returned by the orientation lookup. */
  type Angle = real

  /** The block-angle lookup of the preprocessing stage, already applied to one
      orientation field: it maps a pixel (row, col) to the ridge angle there. */
  type Orientation = (int, int) -> Angle

  datatype Point = Point(row: int, col: int, kind: MinutiaType, angle: Option<Angle>)

  /** A skeleton image, row by row. */
  type Grid = seq<seq<int>>

  function Height(g: Grid): nat { |g| }

  function Width(g: Grid): nat { if |g| == 0 then 0 else |g[0]| }

  predicate Rectangular(g: Grid) {
    forall r :: 0 <= r < |g| ==> |g[r]| == Width(g)
  }

  /** (i, j) has a full 3x3 neighbourhood inside the image. */
  predicate Interior(g: Grid, i: int, j: int) {
    1 <= i <= Height(g) - 2 && 1 <= j <= Width(g) - 2
  }

  predicate InGrid(g: Grid, i: int, j: int) {
    0 <= i < Height(g) && 0 <= j < Width(g)
  }

  // ---------------------------------------------------------------------------
  // Crossing number
  // ---------------------------------------------------------------------------

  /** A cell of a 3x3 block, as (row, col) offsets from its top-left corner. */
  type Offset = d: (int, int) | 0 <= d.0 <= 2 && 0 <= d.1 <= 2 witness (0, 0)

  /** The closed walk round the block used by the detector: top-left, left,
      bottom-left, bottom, bottom-right, right, top-right, top, and back to
      top-left. The centre (1, 1) is not on it. */
  const Walk: seq<Offset> := [(0, 0), (1, 0), (2, 0), (2, 1), (2, 2), (1, 2), (0, 2), (0, 1), (0, 0)]

  /** The same ring walked the other way round: top-left, top, top-right,
      right, bottom-right, bottom, bottom-left, left, top-left. */
  const ClockwiseWalk: seq<Offset> := [(0, 0), (0, 1), (0, 2), (1, 2), (2, 2), (2, 1), (2, 0), (1, 0), (0, 0)]

  /** The pixel at offset d of the 3x3 block centred on (i, j). */
  function BlockAt(g: Grid, i: int, j: int, d: Offset): int
    requires Rectangular(g) && Interior(g, i, j)
  {
    g[i - 1 + d.0][j - 1 + d.1]
  }

  /** Sum of block[walk[k]] * (1 - block[walk[k + 1]]) over the first n edges of a walk. */
  function Transitions(g: Grid, i: int, j: int, walk: seq<Offset>, n: nat): int
    requires Rectangular(g) && Interior(g, i, j) && n < |walk|
  {
    if n == 0 then 0
    else Transitions(g, i, j, walk, n - 1) + BlockAt(g, i, j, walk[n - 1]) * (1 - BlockAt(g, i, j, walk[n]))
  }

  /** The crossing number of (i, j): the sum over the eight edges of Walk. */
  function CrossingNumber(g: Grid, i: int, j: int): int
    requires Rectangular(g) && Interior(g, i, j)
  {
    Transitions(g, i, j, Walk, |Walk| - 1)
  }

  /** Every pixel of the 3x3 block centred on (i, j) is 0 or 1. */
  predicate BinaryBlock(g: Grid, i: int, j: int)
    requires Rectangular(g) && Interior(g, i, j)
  {
    forall r, c :: i - 1 <= r <= i + 1 && j - 1 <= c <= j + 1 ==> g[r][c] == 0 || g[r][c] == 1
  }

  /** On a 0/1 block, a walk edge contributes 1 exactly when it goes from ridge
      to background, and two consecutive edges cannot both contribute: after n
      edges the sum is at most (n + 1 - last pixel) / 2. */
  lemma {:induction false} TransitionsBound(g: Grid, i: int, j: int, n: nat)
    requires Rectangular(g) && Interior(g, i, j) && BinaryBlock(g, i, j) && n < |Walk|
    ensures 0 <= Transitions(g, i, j, Walk, n) <= (n + 1 - BlockAt(g, i, j, Walk[n])) / 2
  {
    if n > 0 {
      TransitionsBound(g, i, j, n - 1);
      var a, b := BlockAt(g, i, j, Walk[n - 1]), BlockAt(g, i, j, Walk[n]);
      assert a == 0 || a == 1;
      assert b == 0 || b == 1;
      assert a * (1 - b) == if a == 1 && b == 0 then 1 else 0;
    }
  }

  /** On a 0/1 block the crossing number counts ridge-to-background steps
      round the ring, so it lies between 0 and 4. */
  lemma CrossingNumberRange(g: Grid, i: int, j: int)
    requires Rectangular(g) && Interior(g, i, j) && BinaryBlock(g, i, j)
    ensures 0 <= CrossingNumber(g, i, j) <= 4
  {
    TransitionsBound(g, i, j, 8);
  }

  /** The direction of the walk does not matter: for any pixel values the sum
      over the walk above equals the sum over the clockwise walk. */
  lemma WalkDirectionIrrelevant(g: Grid, i: int, j: int)
    requires Rectangular(g) && Interior(g, i, j)
    ensures CrossingNumber(g, i, j) == Transitions(g, i, j, ClockwiseWalk, 8)
  {
    CrossingNumberExpanded(g, i, j);
    ClockwiseExpanded(g, i, j);
    ReversedRingSum(g[i - 1][j - 1], g[i][j - 1], g[i + 1][j - 1], g[i + 1][j],
                    g[i + 1][j + 1], g[i][j + 1], g[i - 1][j + 1], g[i - 1][j]);
  }

  /** Each edge term a * (1 - b) is a minus the product a * b, so going round
      eight values in either direction gives the same sum. */
  lemma ReversedRingSum(tl: int, l: int, bl: int, b: int, br: int, r: int, tr: int, t: int)
    ensures tl * (1 - l) + l * (1 - bl) + bl * (1 - b) + b * (1 - br)
          + br * (1 - r) + r * (1 - tr) + tr * (1 - t) + t * (1 - tl)
         == tl * (1 - t) + t * (1 - tr) + tr * (1 - r) + r * (1 - br)
          + br * (1 - b) + b * (1 - bl) + bl * (1 - l) + l * (1 - tl)
  {
    EdgeTerm(tl, l); EdgeTerm(l, bl); EdgeTerm(bl, b); EdgeTerm(b, br);
    EdgeTerm(br, r); EdgeTerm(r, tr); EdgeTerm(tr, t); EdgeTerm(t, tl);
    EdgeTerm(tl, t); EdgeTerm(t, tr); EdgeTerm(tr, r); EdgeTerm(r, br);
    EdgeTerm(br, b); EdgeTerm(b, bl); EdgeTerm(bl, l); EdgeTerm(l, tl);
    assert tl * l == l * tl && l * bl == bl * l && bl * b == b * bl && b * br == br * b;
    assert br * r == r * br && r * tr == tr * r && tr * t == t * tr && t * tl == tl * t;
  }

  lemma EdgeTerm(x: int, y: int)
    ensures x * (1 - y) == x - x * y
  {
  }

  /** The clockwise sum written out over the eight neighbours of (i, j). */
  lemma ClockwiseExpanded(g: Grid, i: int, j: int)
    requires Rectangular(g) && Interior(g, i, j)
    ensures var (tl, l, bl, b) := (g[i - 1][j - 1], g[i][j - 1], g[i + 1][j - 1], g[i + 1][j]);
            var (br, r, tr, t) := (g[i + 1][j + 1], g[i][j + 1], g[i - 1][j + 1], g[i - 1][j]);
            Transitions(g, i, j, ClockwiseWalk, 8)
            == tl * (1 - t) + t * (1 - tr) + tr * (1 - r) + r * (1 - br)
             + br * (1 - b) + b * (1 - bl) + bl * (1 - l) + l * (1 - tl)
  {
    var (tl, l, bl, b) := (g[i - 1][j - 1], g[i][j - 1], g[i + 1][j - 1], g[i + 1][j]);
    var (br, r, tr, t) := (g[i + 1][j + 1], g[i][j + 1], g[i - 1][j + 1], g[i - 1][j]);
    var cw := [tl, t, tr, r, br, b, bl, l, tl];
    forall k | 0 <= k < 9 ensures BlockAt(g, i, j, ClockwiseWalk[k]) == cw[k] {
      if k == 0 {} else if k == 1 {} else if k == 2 {} else if k == 3 {} else if k == 4 {}
      else if k == 5 {} else if k == 6 {} else if k == 7 {} else {}
    }
    TransitionsOfValues(g, i, j, ClockwiseWalk, cw, 8);
    EdgeSumOfNine(cw);
  }

  /** The crossing number written out over the eight neighbours of (i, j). */
  lemma CrossingNumberExpanded(g: Grid, i: int, j: int)
    requires Rectangular(g) && Interior(g, i, j)
    ensures var (tl, l, bl, b) := (g[i - 1][j - 1], g[i][j - 1], g[i + 1][j - 1], g[i + 1][j]);
            var (br, r, tr, t) := (g[i + 1][j + 1], g[i][j + 1], g[i - 1][j + 1], g[i - 1][j]);
            CrossingNumber(g, i, j)
            == tl * (1 - l) + l * (1 - bl) + bl * (1 - b) + b * (1 - br)
             + br * (1 - r) + r * (1 - tr) + tr * (1 - t) + t * (1 - tl)
  {
    var (tl, l, bl, b) := (g[i - 1][j - 1], g[i][j - 1], g[i + 1][j - 1], g[i + 1][j]);
    var (br, r, tr, t) := (g[i + 1][j + 1], g[i][j + 1], g[i - 1][j + 1], g[i - 1][j]);
    var ccw := [tl, l, bl, b, br, r, tr, t, tl];
    forall k | 0 <= k < 9 ensures BlockAt(g, i, j, Walk[k]) == ccw[k] {
      if k == 0 {} else if k == 1 {} else if k == 2 {} else if k == 3 {} else if k == 4 {}
      else if k == 5 {} else if k == 6 {} else if k == 7 {} else {}
    }
    TransitionsOfValues(g, i, j, Walk, ccw, 8);
    EdgeSumOfNine(ccw);
  }

  /** The neighbours of (i, j) in the order of Walk, ending where they start. */
  function WalkValues(g: Grid, i: int, j: int): (v: seq<int>)
    requires Rectangular(g) && Interior(g, i, j)
    ensures |v| == |Walk| && forall k :: 0 <= k < |Walk| ==> v[k] == BlockAt(g, i, j, Walk[k])
  {
    seq(|Walk|, k requires 0 <= k < |Walk| => BlockAt(g, i, j, Walk[k]))
  }

  /** The number of ridge-to-background steps (a 1 followed by a 0) among the
      first n steps of vals. */
  function Steps(vals: seq<int>, n: nat): nat
    requires n < |vals|
  {
    if n == 0 then 0
    else Steps(vals, n - 1) + (if vals[n - 1] == 1 && vals[n] == 0 then 1 else 0)
  }

  /** On 0/1 values each edge term is 1 exactly at a ridge-to-background step. */
  lemma {:induction false} EdgeSumCountsSteps(vals: seq<int>, n: nat)
    requires n < |vals| && forall k :: 0 <= k < |vals| ==> vals[k] == 0 || vals[k] == 1
    ensures EdgeSum(vals, n) == Steps(vals, n)
  {
    if n > 0 {
      EdgeSumCountsSteps(vals, n - 1);
      var a, b := vals[n - 1], vals[n];
      assert a * (1 - b) == if a == 1 && b == 0 then 1 else 0;
    }
  }

  /** On a 0/1 block the crossing number counts the ridges that leave the
      block: the ridge-to-background steps of the walk round the centre. */
  lemma CrossingNumberCountsSteps(g: Grid, i: int, j: int)
    requires Rectangular(g) && Interior(g, i, j) && BinaryBlock(g, i, j)
    ensures CrossingNumber(g, i, j) == Steps(WalkValues(g, i, j), 8)
  {
    var v := WalkValues(g, i, j);
    forall k | 0 <= k < |v| ensures v[k] == 0 || v[k] == 1 {
      var d := Walk[k];
      assert v[k] == g[i - 1 + d.0][j - 1 + d.1];
    }
    TransitionsOfValues(g, i, j, Walk, v, 8);
    EdgeSumCountsSteps(v, 8);
  }

  /** The sum of vals[k] * (1 - vals[k + 1]) over the first n edges. */
  function EdgeSum(vals: seq<int>, n: nat): int
    requires n < |vals|
  {
    if n == 0 then 0 else EdgeSum(vals, n - 1) + vals[n - 1] * (1 - vals[n])
  }

  /** The eight edges of a nine-value walk, written out. */
  lemma EdgeSumOfNine(v: seq<int>)
    requires |v| == 9
    ensures EdgeSum(v, 8) == v[0] * (1 - v[1]) + v[1] * (1 - v[2]) + v[2] * (1 - v[3]) + v[3] * (1 - v[4])
                           + v[4] * (1 - v[5]) + v[5] * (1 - v[6]) + v[6] * (1 - v[7]) + v[7] * (1 - v[8])
  {
    assert EdgeSum(v, 1) == v[0] * (1 - v[1]);
    assert EdgeSum(v, 2) == EdgeSum(v, 1) + v[1] * (1 - v[2]);
    assert EdgeSum(v, 3) == EdgeSum(v, 2) + v[2] * (1 - v[3]);
    assert EdgeSum(v, 4) == EdgeSum(v, 3) + v[3] * (1 - v[4]);
    assert EdgeSum(v, 5) == EdgeSum(v, 4) + v[4] * (1 - v[5]);
    assert EdgeSum(v, 6) == EdgeSum(v, 5) + v[5] * (1 - v[6]);
    assert EdgeSum(v, 7) == EdgeSum(v, 6) + v[6] * (1 - v[7]);
  }

  lemma {:induction false} TransitionsOfValues(g: Grid, i: int, j: int, walk: seq<Offset>, vals: seq<int>, n: nat)
    requires Rectangular(g) && Interior(g, i, j) && |vals| == |walk| && n < |walk|
    requires forall k :: 0 <= k < |walk| ==> BlockAt(g, i, j, walk[k]) == vals[k]
    ensures Transitions(g, i, j, walk, n) == EdgeSum(vals, n)
  {
    if n > 0 {
      TransitionsOfValues(g, i, j, walk, vals, n - 1);
    }
  }

  /** Crossing number 1 is a ridge ending, more than 2 a bifurcation, anything else no minutia. */
  function Classify(cn: int): Option<MinutiaType> {
    if cn == 1 then Some(Termination)
    else if cn > 2 then Some(Bifurcation)
    else None
  }

  function AngleAt(orient: Option<Orientation>, i: int, j: int): Option<Angle> {
    match orient
    case None => None
    case Some(f) => Some(f(i, j))
  }

  // ---------------------------------------------------------------------------
  // The scan, as specification functions
  // ---------------------------------------------------------------------------

  /** (i, j) is an interior ridge pixel whose crossing number makes it a minutia. */
  predicate IsMinutia(g: Grid, ridgeValue: int, i: int, j: int)
    requires Rectangular(g)
  {
    Interior(g, i, j) && g[i][j] == ridgeValue && Classify(CrossingNumber(g, i, j)).Some?
  }

  /** p is exactly the point the detector reports for its pixel. */
  predicate Reported(g: Grid, orient: Option<Orientation>, ridgeValue: int, p: Point)
    requires Rectangular(g)
  {
    && IsMinutia(g, ridgeValue, p.row, p.col)
    && Classify(CrossingNumber(g, p.row, p.col)) == Some(p.kind)
    && p.angle == AngleAt(orient, p.row, p.col)
  }

  /** What the scan emits for the interior pixel (i, j): nothing or one point. */
  function PixelPoints(g: Grid, orient: Option<Orientation>, ridgeValue: int, i: int, j: int): seq<Point>
    requires Rectangular(g) && Interior(g, i, j)
  {
    if g[i][j] != ridgeValue then []
    else match Classify(CrossingNumber(g, i, j))
      case None => []
      case Some(t) => [Point(i, j, t, AngleAt(orient, i, j))]
  }

  /** One past the last scanned row (at least 1, the first scanned row). */
  function RowLimit(g: Grid): nat { if Height(g) < 2 then 1 else Height(g) - 1 }

  /** One past the last scanned column (at least 1, the first scanned column). */
  function ColLimit(g: Grid): nat { if Width(g) < 2 then 1 else Width(g) - 1 }

  /** The points emitted in row i for columns 1 .. n - 1, in scan order. */
  function ScanRow(g: Grid, orient: Option<Orientation>, ridgeValue: int, i: int, n: nat): seq<Point>
    requires Rectangular(g) && 1 <= i <= Height(g) - 2 && 1 <= n <= ColLimit(g)
  {
    if n == 1 then []
    else ScanRow(g, orient, ridgeValue, i, n - 1) + PixelPoints(g, orient, ridgeValue, i, n - 1)
  }

  /** The points emitted in rows 1 .. m - 1, in scan order. */
  function Scan(g: Grid, orient: Option<Orientation>, ridgeValue: int, m: nat): seq<Point>
    requires Rectangular(g) && 1 <= m <= RowLimit(g)
  {
    if m == 1 then []
    else Scan(g, orient, ridgeValue, m - 1) + ScanRow(g, orient, ridgeValue, m - 1, ColLimit(g))
  }

  /** Every point the crossing-number scan finds, before border rejection. */
  function Detected(g: Grid, orient: Option<Orientation>, ridgeValue: int): (r: seq<Point>)
    requires Rectangular(g)
    ensures AllInGrid(g, r)
  {
    ScanComplete(g, orient, ridgeValue, RowLimit(g));
    Scan(g, orient, ridgeValue, RowLimit(g))
  }

  // ---------------------------------------------------------------------------
  // Scan order
  // ---------------------------------------------------------------------------

  /** p comes strictly before q in row-major order. */
  predicate Before(p: Point, q: Point) {
    p.row < q.row || (p.row == q.row && p.col < q.col)
  }

  predicate RowMajor(pts: seq<Point>) {
    forall a, b :: 0 <= a < b < |pts| ==> Before(pts[a], pts[b])
  }

  /** Some point of pts sits on pixel (i, j). */
  predicate ReportsAt(pts: seq<Point>, i: int, j: int) {
    exists p :: p in pts && p.row == i && p.col == j
  }

  lemma RowMajorAppend(a: seq<Point>, b: seq<Point>)
    requires RowMajor(a) && RowMajor(b)
    requires forall p, q :: p in a && q in b ==> Before(p, q)
    ensures RowMajor(a + b)
  {
    forall x, y | 0 <= x < y < |a + b| ensures Before((a + b)[x], (a + b)[y]) {
      if y < |a| {
      } else if x >= |a| {
        assert (a + b)[x] == b[x - |a|] && (a + b)[y] == b[y - |a|];
      } else {
        assert (a + b)[x] in a && (a + b)[y] in b;
      }
    }
  }

  lemma ReportsAtAppend(a: seq<Point>, b: seq<Point>, i: int, j: int)
    ensures ReportsAt(a + b, i, j) <==> ReportsAt(a, i, j) || ReportsAt(b, i, j)
  {
    if ReportsAt(a + b, i, j) {
      var p :| p in a + b && p.row == i && p.col == j;
      assert p in a || p in b;
    }
    if ReportsAt(a, i, j) {
      var p :| p in a && p.row == i && p.col == j;
      assert p in a + b;
    }
    if ReportsAt(b, i, j) {
      var p :| p in b && p.row == i && p.col == j;
      assert p in a + b;
    }
  }

  /** Row i of the scan lists its minutiae in column order, and exactly those
      at columns below n. */
  lemma {:induction false} ScanRowComplete(g: Grid, orient: Option<Orientation>, ridgeValue: int, i: int, n: nat)
    requires Rectangular(g) && 1 <= i <= Height(g) - 2 && 1 <= n <= ColLimit(g)
    ensures forall p :: p in ScanRow(g, orient, ridgeValue, i, n) ==>
      p.row == i && p.col < n && Reported(g, orient, ridgeValue, p)
    ensures RowMajor(ScanRow(g, orient, ridgeValue, i, n))
    ensures forall j :: ReportsAt(ScanRow(g, orient, ridgeValue, i, n), i, j) <==> j < n && IsMinutia(g, ridgeValue, i, j)
  {
    if n > 1 {
      ScanRowComplete(g, orient, ridgeValue, i, n - 1);
      var prefix, here := ScanRow(g, orient, ridgeValue, i, n - 1), PixelPoints(g, orient, ridgeValue, i, n - 1);
      RowMajorAppend(prefix, here);
      forall j ensures ReportsAt(prefix + here, i, j) <==> j < n && IsMinutia(g, ridgeValue, i, j) {
        ReportsAtAppend(prefix, here, i, j);
        if ReportsAt(here, i, j) {
          assert j == n - 1;
        }
        if j == n - 1 && IsMinutia(g, ridgeValue, i, j) {
          assert here[0] in here;
        }
      }
    }
  }

  /** The scan of rows 1 .. m - 1 is in row-major order and reports exactly
      the minutiae of those rows. */
  lemma {:induction false} ScanComplete(g: Grid, orient: Option<Orientation>, ridgeValue: int, m: nat)
    requires Rectangular(g) && 1 <= m <= RowLimit(g)
    ensures forall p :: p in Scan(g, orient, ridgeValue, m) ==> p.row < m && Reported(g, orient, ridgeValue, p)
    ensures RowMajor(Scan(g, orient, ridgeValue, m))
    ensures forall i, j :: ReportsAt(Scan(g, orient, ridgeValue, m), i, j) <==> i < m && IsMinutia(g, ridgeValue, i, j)
  {
    if m > 1 {
      ScanComplete(g, orient, ridgeValue, m - 1);
      ScanRowComplete(g, orient, ridgeValue, m - 1, ColLimit(g));
      var above, row := Scan(g, orient, ridgeValue, m - 1), ScanRow(g, orient, ridgeValue, m - 1, ColLimit(g));
      RowMajorAppend(above, row);
      forall i, j ensures ReportsAt(above + row, i, j) <==> i < m && IsMinutia(g, ridgeValue, i, j) {
        ReportsAtAppend(above, row, i, j);
        if ReportsAt(row, i, j) {
          var p :| p in row && p.row == i && p.col == j;
        }
        if i == m - 1 && IsMinutia(g, ridgeValue, i, j) {
          assert j < ColLimit(g);
        }
      }
    }
  }

  // ---------------------------------------------------------------------------
  // Properties of the detection
  // ---------------------------------------------------------------------------

  /** Every reported point is an interior ridge pixel, classified by its
      crossing number (1 is a termination, above 2 a bifurcation, never a
      core), carrying the orientation angle when a field is given. */
  lemma DetectedSound(g: Grid, orient: Option<Orientation>, ridgeValue: int, p: Point)
    requires Rectangular(g) && p in Detected(g, orient, ridgeValue)
    ensures 1 <= p.row <= Height(g) - 2 && 1 <= p.col <= Width(g) - 2
    ensures g[p.row][p.col] == ridgeValue
    ensures p.kind == Termination <==> CrossingNumber(g, p.row, p.col) == 1
    ensures p.kind == Bifurcation <==> CrossingNumber(g, p.row, p.col) > 2
    ensures p.kind != Core
    ensures orient.None? ==> p.angle.None?
    ensures orient.Some? ==> p.angle == Some(orient.value(p.row, p.col))
  {
    ScanComplete(g, orient, ridgeValue, RowLimit(g));
  }

  /** A pixel is reported iff it is interior, equals the ridge value, and has
      crossing number 1 or above 2. */
  lemma DetectedComplete(g: Grid, orient: Option<Orientation>, ridgeValue: int, i: int, j: int)
    requires Rectangular(g)
    ensures ReportsAt(Detected(g, orient, ridgeValue), i, j) <==>
      Interior(g, i, j) && g[i][j] == ridgeValue && (CrossingNumber(g, i, j) == 1 || CrossingNumber(g, i, j) > 2)
  {
    ScanComplete(g, orient, ridgeValue, RowLimit(g));
  }

  /** Points come out in strictly increasing row-major order, so no pixel is reported twice. */
  lemma DetectedInScanOrder(g: Grid, orient: Option<Orientation>, ridgeValue: int)
    requires Rectangular(g)
    ensures RowMajor(Detected(g, orient, ridgeValue))
    ensures forall a, b :: 0 <= a < b < |Detected(g, orient, ridgeValue)| ==>
      (Detected(g, orient, ridgeValue)[a].row, Detected(g, orient, ridgeValue)[a].col)
      != (Detected(g, orient, ridgeValue)[b].row, Detected(g, orient, ridgeValue)[b].col)
  {
    ScanComplete(g, orient, ridgeValue, RowLimit(g));
  }

  /** A row segment without minutiae emits nothing. */
  lemma {:induction false} ScanRowEmpty(g: Grid, orient: Option<Orientation>, ridgeValue: int, i: int, n: nat)
    requires Rectangular(g) && 1 <= i <= Height(g) - 2 && 1 <= n <= ColLimit(g)
    requires forall j :: !IsMinutia(g, ridgeValue, i, j)
    ensures ScanRow(g, orient, ridgeValue, i, n) == []
  {
    if n > 1 {
      ScanRowEmpty(g, orient, ridgeValue, i, n - 1);
      assert !IsMinutia(g, ridgeValue, i, n - 1);
    }
  }

  /** An image without minutiae yields no point. */
  lemma {:induction false} ScanEmpty(g: Grid, orient: Option<Orientation>, ridgeValue: int, m: nat)
    requires Rectangular(g) && 1 <= m <= RowLimit(g)
    requires forall i, j :: !IsMinutia(g, ridgeValue, i, j)
    ensures Scan(g, orient, ridgeValue, m) == []
  {
    if m > 1 {
      ScanEmpty(g, orient, ridgeValue, m - 1);
      ScanRowEmpty(g, orient, ridgeValue, m - 1, ColLimit(g));
    }
  }

  /** An image less than three pixels high or wide has no interior pixel and yields no point. */
  lemma SmallGridYieldsNothing(g: Grid, orient: Option<Orientation>, ridgeValue: int)
    requires Rectangular(g) && (Height(g) < 3 || Width(g) < 3)
    ensures Detected(g, orient, ridgeValue) == []
  {
    ScanEmpty(g, orient, ridgeValue, RowLimit(g));
  }

  /** An image without any pixel equal to the ridge value yields no point. */
  lemma NoRidgeYieldsNothing(g: Grid, orient: Option<Orientation>, ridgeValue: int)
    requires Rectangular(g)
    requires forall r, c :: 0 <= r < Height(g) && 0 <= c < Width(g) ==> g[r][c] != ridgeValue
    ensures Detected(g, orient, ridgeValue) == []
  {
    ScanEmpty(g, orient, ridgeValue, RowLimit(g));
  }

  // ---------------------------------------------------------------------------
  // Border rejection
  // ---------------------------------------------------------------------------

  /** Column j of the image, top to bottom. */
  function Column(g: Grid, j: int): (c: seq<int>)
    requires Rectangular(g) && 0 <= j < Width(g)
    ensures |c| == Height(g) && forall r :: 0 <= r < |c| ==> c[r] == g[r][j]
  {
    seq(|g|, r requires 0 <= r < |g| => g[r][j])
  }

  /** The ridge value occurs strictly left of (i, j) in its row, strictly above
      it in its column, strictly right of it and strictly below it. */
  predicate RidgeOnAllSides(g: Grid, ridgeValue: int, i: int, j: int)
    requires Rectangular(g) && InGrid(g, i, j)
  {
    && ridgeValue in g[i][..j]
    && ridgeValue in Column(g, j)[..i]
    && ridgeValue in g[i][j + 1..]
    && ridgeValue in Column(g, j)[i + 1..]
  }

  predicate AllInGrid(g: Grid, pts: seq<Point>) {
    forall p :: p in pts ==> InGrid(g, p.row, p.col)
  }

  /** The points of pts that have ridge on all four sides, in their order. */
  function BorderKept(g: Grid, pts: seq<Point>, ridgeValue: int): seq<Point>
    requires Rectangular(g) && AllInGrid(g, pts)
  {
    if pts == [] then []
    else
      var p := pts[|pts| - 1];
      var kept := BorderKept(g, pts[..|pts| - 1], ridgeValue);
      if RidgeOnAllSides(g, ridgeValue, p.row, p.col) then kept + [p] else kept
  }

  /** sub is obtained from s by deleting elements. */
  predicate IsSubsequence(sub: seq<Point>, s: seq<Point>)
    decreases |s|
  {
    if sub == [] then true
    else if s == [] then false
    else
      (sub[|sub| - 1] == s[|s| - 1] && IsSubsequence(sub[..|sub| - 1], s[..|s| - 1]))
      || IsSubsequence(sub, s[..|s| - 1])
  }

  /** Border rejection keeps exactly the points with ridge on all four sides,
      unchanged and in their original order. */
  lemma {:induction false} BorderKeptFilters(g: Grid, pts: seq<Point>, ridgeValue: int)
    requires Rectangular(g) && AllInGrid(g, pts)
    ensures IsSubsequence(BorderKept(g, pts, ridgeValue), pts)
    ensures forall p :: p in BorderKept(g, pts, ridgeValue) <==> p in pts && RidgeOnAllSides(g, ridgeValue, p.row, p.col)
  {
    if pts != [] {
      var init, p := pts[..|pts| - 1], pts[|pts| - 1];
      assert pts == init + [p];
      BorderKeptFilters(g, init, ridgeValue);
      var kept := BorderKept(g, init, ridgeValue);
      if RidgeOnAllSides(g, ridgeValue, p.row, p.col) {
        assert (kept + [p])[..|kept|] == kept;
      } else if kept != [] {
        assert IsSubsequence(kept, pts);
      }
    }
  }

  /** Border rejection keeps a row-major list in row-major order. */
  lemma {:induction false} BorderKeptInOrder(g: Grid, pts: seq<Point>, ridgeValue: int)
    requires Rectangular(g) && AllInGrid(g, pts) && RowMajor(pts)
    ensures RowMajor(BorderKept(g, pts, ridgeValue))
  {
    if pts != [] {
      var init, p := pts[..|pts| - 1], pts[|pts| - 1];
      BorderKeptInOrder(g, init, ridgeValue);
      BorderKeptFilters(g, init, ridgeValue);
      var kept := BorderKept(g, init, ridgeValue);
      forall q | q in kept ensures Before(q, p) {
        var k :| 0 <= k < |init| && init[k] == q;
      }
      RowMajorAppend(kept, [p]);
    }
  }

  // ---------------------------------------------------------------------------
  // The detector
  // ---------------------------------------------------------------------------

  /** Drops every point that has no ridge pixel in one of the four directions. */
  method RemoveBorderPoints(sklt: Grid, minutiae: seq<Point>, ridgeValue: int) returns (result: seq<Point>)
    requires Rectangular(sklt) && AllInGrid(sklt, minutiae)
    ensures result == BorderKept(sklt, minutiae, ridgeValue)
  {
    result := [];
    var k := 0;
    while k < |minutiae|
      invariant 0 <= k <= |minutiae|
      invariant result == BorderKept(sklt, minutiae[..k], ridgeValue)
    {
      var point := minutiae[k];
      assert minutiae[..k + 1][..k] == minutiae[..k];
      if RidgeOnAllSides(sklt, ridgeValue, point.row, point.col) {
        result := result + [point];
      }
      k := k + 1;
    }
    assert minutiae[..k] == minutiae;
  }

  /** The body of the scan at one interior pixel: a ridge pixel with crossing
      number 1 gives a termination, one above 2 a bifurcation. */
  method ClassifyPixel(sklt: Grid, orient: Option<Orientation>, ridgeValue: int, i: int, j: int)
    returns (found: seq<Point>)
    requires Rectangular(sklt) && Interior(sklt, i, j)
    ensures found == PixelPoints(sklt, orient, ridgeValue, i, j)
    ensures found == [] <==> !IsMinutia(sklt, ridgeValue, i, j)
    ensures forall p :: p in found ==> p.row == i && p.col == j && Reported(sklt, orient, ridgeValue, p)
  {
    found := [];
    if sklt[i][j] == ridgeValue {
      var pfunc := CrossingNumber(sklt, i, j);
      if pfunc == 1 {
        found := [Point(i, j, Termination, AngleAt(orient, i, j))];
      } else if pfunc > 2 {
        found := [Point(i, j, Bifurcation, AngleAt(orient, i, j))];
      }
    }
  }

  /** The inner loop of the scan: visits the interior pixels of row i from
      left to right and appends the points they give. */
  method ScanRowInto(sklt: Grid, orient: Option<Orientation>, ridgeValue: int, i: int, points: seq<Point>)
    returns (extended: seq<Point>)
    requires Rectangular(sklt) && 1 <= i <= Height(sklt) - 2
    ensures extended == points + ScanRow(sklt, orient, ridgeValue, i, ColLimit(sklt))
  {
    extended := points;
    var j := 1;
    while j < Width(sklt) - 1
      invariant 1 <= j <= ColLimit(sklt)
      invariant extended == points + ScanRow(sklt, orient, ridgeValue, i, j)
    {
      var found := ClassifyPixel(sklt, orient, ridgeValue, i, j);
      assert ScanRow(sklt, orient, ridgeValue, i, j + 1) == ScanRow(sklt, orient, ridgeValue, i, j) + found;
      extended := extended + found;
      j := j + 1;
    }
  }

  /** Scans every interior pixel in row-major order, classifies ridge pixels by
      their crossing number, and optionally rejects border points. */
  method Detect(sklt: Grid, orient: Option<Orientation>, ridgeValue: int, removeInvalid: bool)
    returns (points: seq<Point>)
    requires Rectangular(sklt)
    ensures !removeInvalid ==> points == Detected(sklt, orient, ridgeValue)
    ensures removeInvalid ==> points == BorderKept(sklt, Detected(sklt, orient, ridgeValue), ridgeValue)
  {
    points := [];
    var i := 1;
    while i < Height(sklt) - 1
      invariant 1 <= i <= RowLimit(sklt)
      invariant points == Scan(sklt, orient, ridgeValue, i)
    {
      points := ScanRowInto(sklt, orient, ridgeValue, i, points);
      i := i + 1;
    }
    assert points == Detected(sklt, orient, ridgeValue);
    if removeInvalid {
      points := RemoveBorderPoints(sklt, points, ridgeValue);
    }
  }

  /** Detection with border rejection reports only interior minutiae that
      have ridge on all four sides, in strictly increasing row-major order. */
  lemma DetectedAndKept(g: Grid, orient: Option<Orientation>, ridgeValue: int)
    requires Rectangular(g)
    ensures RowMajor(BorderKept(g, Detected(g, orient, ridgeValue), ridgeValue))
    ensures forall p :: p in BorderKept(g, Detected(g, orient, ridgeValue), ridgeValue) <==>
      p in Detected(g, orient, ridgeValue) && RidgeOnAllSides(g, ridgeValue, p.row, p.col)
  {
    DetectedInScanOrder(g, orient, ridgeValue);
    BorderKeptInOrder(g, Detected(g, orient, ridgeValue), ridgeValue);
    BorderKeptFilters(g, Detected(g, orient, ridgeValue), ridgeValue);
  }

  // ---------------------------------------------------------------------------
  // Two small images
  // ---------------------------------------------------------------------------

  /** A horizontal ridge line through the interior has crossing number 2 at
      every interior pixel and yields no minutia. */
  lemma StraightRidgeHasNoMinutiae()
    ensures Detected([[0, 0, 0, 0], [1, 1, 1, 1], [0, 0, 0, 0]], None, 1) == []
  {
    var g := [[0, 0, 0, 0], [1, 1, 1, 1], [0, 0, 0, 0]];
    assert Rectangular(g) && RowLimit(g) == 2 && ColLimit(g) == 3;
    CrossingNumberExpanded(g, 1, 1);
    CrossingNumberExpanded(g, 1, 2);
    assert PixelPoints(g, None, 1, 1, 1) == [] && PixelPoints(g, None, 1, 1, 2) == [];
    assert ScanRow(g, None, 1, 1, 3) == ScanRow(g, None, 1, 1, 2) == [];
    assert Scan(g, None, 1, 2) == Scan(g, None, 1, 1) + ScanRow(g, None, 1, 1, 3);
  }

  /** The tip of a ridge stub is one termination; border rejection then drops
      it, because there is no ridge above it in its column. */
  lemma StubTipIsTermination()
    ensures Detected([[0, 0, 0], [1, 1, 0], [0, 0, 0]], None, 1) == [Point(1, 1, Termination, None)]
    ensures BorderKept([[0, 0, 0], [1, 1, 0], [0, 0, 0]], [Point(1, 1, Termination, None)], 1) == []
  {
    var g := [[0, 0, 0], [1, 1, 0], [0, 0, 0]];
    assert Rectangular(g) && RowLimit(g) == 2 && ColLimit(g) == 2;
    CrossingNumberExpanded(g, 1, 1);
    assert PixelPoints(g, None, 1, 1, 1) == [Point(1, 1, Termination, None)];
    assert ScanRow(g, None, 1, 1, 2) == [Point(1, 1, Termination, None)];
    assert Scan(g, None, 1, 2) == Scan(g, None, 1, 1) + ScanRow(g, None, 1, 1, 2);
    assert Column(g, 1)[..1] == [0];
  }
}
