/** Feature vectors computed from a minutiae list relative to its core point:
    the concentric-ring histogram ("circular") and the dispatch between the
    two encodings. */
module Feature {
  import opened Minutiae

  /** The ways extraction fails. */
  datatype Error =
    | MissingCorePoint        // no point of type Core in the list
    | MissingParameter        // "circular" without a bucket size
    | Unsupported(tag: string) // a method tag other than "polar" and "circular"
    | PolarShapeMissing       // the polar encoder allocates its result without a shape

  datatype Result<T> = Ok(value: T) | Err(error: Error)

  /** The counters of one ring: terminations and bifurcations that fall in it. */
  datatype Ring = Ring(terminations: nat, bifurcations: nat)

  // ---------------------------------------------------------------------------
  // Core lookup
  // ---------------------------------------------------------------------------

  /** The Core points of a list, in list order. */
  function Cores(minutiae: seq<Point>): seq<Point> {
    if minutiae == [] then []
    else (if minutiae[0].kind == Core then [minutiae[0]] else []) + Cores(minutiae[1..])
  }

  /** The first Core point of the list, or None when it has none. */
  function GetCore(minutiae: seq<Point>): Option<Point> {
    var cores := Cores(minutiae);
    if cores == [] then None else Some(cores[0])
  }

  /** The core is the first Core point in list order. */
  lemma {:induction false} GetCoreIsFirst(minutiae: seq<Point>, k: nat)
    requires k < |minutiae| && minutiae[k].kind == Core
    requires forall k' :: 0 <= k' < k ==> minutiae[k'].kind != Core
    ensures GetCore(minutiae) == Some(minutiae[k])
  {
    if k > 0 {
      GetCoreIsFirst(minutiae[1..], k - 1);
    }
  }

  /** The lookup fails exactly when the list holds no Core point. */
  lemma {:induction false} GetCoreFails(minutiae: seq<Point>)
    ensures GetCore(minutiae).None? <==> forall k :: 0 <= k < |minutiae| ==> minutiae[k].kind != Core
  {
    if minutiae != [] {
      GetCoreFails(minutiae[1..]);
      if minutiae[0].kind != Core {
        assert forall k :: 1 <= k < |minutiae| ==> minutiae[k] == minutiae[1..][k - 1];
      }
    }
  }

  /** A core that is found is a point of the list. */
  lemma {:induction false} GetCoreInList(minutiae: seq<Point>)
    requires GetCore(minutiae).Some?
    ensures GetCore(minutiae).value in minutiae && GetCore(minutiae).value.kind == Core
  {
    if minutiae[0].kind != Core {
      GetCoreInList(minutiae[1..]);
    }
  }

  // ---------------------------------------------------------------------------
  // Distances and ring indices
  // ---------------------------------------------------------------------------

  /** The squared Euclidean distance between the pixels of two points. */
  function SqDist(core: Point, p: Point): nat {
    var dr, dc := core.row - p.row, core.col - p.col;
    dr * dr + dc * dc
  }

  /** The integer square root, searching upwards from r. */
  function ISqrtFrom(n: nat, r: nat): (s: nat)
    requires r * r <= n
    ensures s * s <= n < (s + 1) * (s + 1)
    decreases n - r * r
  {
    if (r + 1) * (r + 1) <= n then ISqrtFrom(n, r + 1) else r
  }

  lemma MulMono(x: int, y: int, z: int)
    requires 0 <= x <= y && 0 <= z
    ensures x * z <= y * z
  {
  }

  lemma SquareMono(x: int, y: int)
    requires 0 <= x <= y
    ensures x * x <= y * y
  {
    MulMono(x, y, x);
    MulMono(x, y, y);
  }

  /** The ring of a point at squared distance d2 for rings of width b: the k
      with k * b <= sqrt(d2) < (k + 1) * b, that is floor(sqrt(d2) / b). */
  function RingIndex(d2: nat, b: int): (k: nat)
    requires b > 0
    ensures (k * b) * (k * b) <= d2 < ((k + 1) * b) * ((k + 1) * b)
  {
    var s := ISqrtFrom(d2, 0);
    var k := s / b;
    assert k * b <= s < (k + 1) * b;
    SquareMono(k * b, s);
    SquareMono(s + 1, (k + 1) * b);
    k
  }

  /** The ring index is the only k that brackets d2. */
  lemma RingIndexUnique(d2: nat, b: int, k: nat)
    requires b > 0 && (k * b) * (k * b) <= d2 < ((k + 1) * b) * ((k + 1) * b)
    ensures k == RingIndex(d2, b)
  {
    var r := RingIndex(d2, b);
    if k < r {
      MulMono(k + 1, r, b);
      SquareMono((k + 1) * b, r * b);
    } else if r < k {
      MulMono(r + 1, k, b);
      SquareMono((r + 1) * b, k * b);
    }
  }

  /** A point further away never lands in a nearer ring. */
  lemma RingIndexMonotone(d2: nat, e2: nat, b: int)
    requires b > 0 && d2 <= e2
    ensures RingIndex(d2, b) <= RingIndex(e2, b)
  {
    var r, s := RingIndex(d2, b), RingIndex(e2, b);
    if s < r {
      MulMono(s + 1, r, b);
      SquareMono((s + 1) * b, r * b);
    }
  }

  /** Wider rings never give a larger ring index. */
  lemma RingIndexShrinks(d2: nat, b: int, c: int)
    requires 0 < b <= c
    ensures RingIndex(d2, c) <= RingIndex(d2, b)
  {
    var r, s := RingIndex(d2, b), RingIndex(d2, c);
    if r < s {
      MulMono(r + 1, s, b);
      MulMono(b, c, s);
      SquareMono((r + 1) * b, s * c);
    }
  }

  // ---------------------------------------------------------------------------
  // The circular histogram, as specification functions
  // ---------------------------------------------------------------------------

  /** The squared distance of every point (the core included) to the core, in list order. */
  function Distances(core: Point, minutiae: seq<Point>): (d: seq<nat>)
    ensures |d| == |minutiae|
  {
    seq(|minutiae|, k requires 0 <= k < |minutiae| => SqDist(core, minutiae[k]))
  }

  /** The largest element of a non-empty list. */
  function SeqMax(s: seq<nat>): (m: nat)
    requires |s| > 0
    ensures m in s && forall k :: 0 <= k < |s| ==> s[k] <= m
  {
    if |s| == 1 then s[0]
    else
      var m := SeqMax(s[..|s| - 1]);
      if s[|s| - 1] > m then s[|s| - 1] else m
  }

  /** The number of rings: one more than the ring index of the farthest point. */
  function RingCount(core: Point, minutiae: seq<Point>, b: int): nat
    requires |minutiae| > 0 && b > 0
  {
    RingIndex(SeqMax(Distances(core, minutiae)), b) + 1
  }

  /** How many points of type t fall in ring k. */
  function CountIn(core: Point, minutiae: seq<Point>, b: int, t: MinutiaType, k: nat): nat
    requires b > 0
  {
    if minutiae == [] then 0
    else
      var p := minutiae[|minutiae| - 1];
      CountIn(core, minutiae[..|minutiae| - 1], b, t, k)
      + (if p.kind == t && RingIndex(SqDist(core, p), b) == k then 1 else 0)
  }

  /** The ring histogram: ring k counts the terminations and the bifurcations at
      distance in [k * b, (k + 1) * b) from the core. */
  function CircularFeature(core: Point, minutiae: seq<Point>, b: int): seq<Ring>
    requires |minutiae| > 0 && b > 0
  {
    seq(RingCount(core, minutiae, b), k requires 0 <= k =>
      Ring(CountIn(core, minutiae, b, Termination, k), CountIn(core, minutiae, b, Bifurcation, k)))
  }

  // ---------------------------------------------------------------------------
  // Properties of the histogram
  // ---------------------------------------------------------------------------

  /** The number of rings is floor(maxDist / b) + 1 for the largest core
      distance maxDist, which is attained by a point of the list. */
  lemma RingCountMeaning(core: Point, minutiae: seq<Point>, b: int)
    requires |minutiae| > 0 && b > 0
    ensures var n, m := RingCount(core, minutiae, b), SeqMax(Distances(core, minutiae));
      && n >= 1
      && ((n - 1) * b) * ((n - 1) * b) <= m < (n * b) * (n * b)
      && (forall p :: p in minutiae ==> SqDist(core, p) <= m)
      && (exists p :: p in minutiae && SqDist(core, p) == m)
  {
    var d, m := Distances(core, minutiae), SeqMax(Distances(core, minutiae));
    forall p | p in minutiae ensures SqDist(core, p) <= m {
      var k :| 0 <= k < |minutiae| && minutiae[k] == p;
      assert d[k] == SqDist(core, p);
    }
    var k :| 0 <= k < |d| && d[k] == m;
    assert minutiae[k] in minutiae;
  }

  /** Every point's ring index is below the ring count. */
  lemma RingIndexInRange(core: Point, minutiae: seq<Point>, b: int, p: Point)
    requires |minutiae| > 0 && b > 0 && p in minutiae
    ensures RingIndex(SqDist(core, p), b) < RingCount(core, minutiae, b)
  {
    RingCountMeaning(core, minutiae, b);
    RingIndexMonotone(SqDist(core, p), SeqMax(Distances(core, minutiae)), b);
  }

  /** Wider rings never give more rings. */
  lemma RingCountShrinks(core: Point, minutiae: seq<Point>, b: int, c: int)
    requires |minutiae| > 0 && 0 < b <= c
    ensures |CircularFeature(core, minutiae, c)| <= |CircularFeature(core, minutiae, b)|
  {
    RingIndexShrinks(SeqMax(Distances(core, minutiae)), b, c);
  }

  /** The number of points of type t. */
  function CountKind(minutiae: seq<Point>, t: MinutiaType): nat {
    if minutiae == [] then 0
    else CountKind(minutiae[..|minutiae| - 1], t) + (if minutiae[|minutiae| - 1].kind == t then 1 else 0)
  }

  /** How many points of type t fall in rings 0 .. n - 1. */
  function CountBelow(core: Point, minutiae: seq<Point>, b: int, t: MinutiaType, n: nat): nat
    requires b > 0
  {
    if minutiae == [] then 0
    else
      var p := minutiae[|minutiae| - 1];
      CountBelow(core, minutiae[..|minutiae| - 1], b, t, n)
      + (if p.kind == t && RingIndex(SqDist(core, p), b) < n then 1 else 0)
  }

  /** The counter of type t in one ring (0 for Core, which has no counter). */
  function Field(ring: Ring, t: MinutiaType): nat {
    match t
    case Termination => ring.terminations
    case Bifurcation => ring.bifurcations
    case Core => 0
  }

  /** The sum of the counters of type t over a list of rings. */
  function Counted(rings: seq<Ring>, t: MinutiaType): nat {
    if rings == [] then 0 else Counted(rings[..|rings| - 1], t) + Field(rings[|rings| - 1], t)
  }

  /** The sum of all counters of a list of rings. */
  function Total(rings: seq<Ring>): nat {
    if rings == [] then 0
    else Total(rings[..|rings| - 1]) + rings[|rings| - 1].terminations + rings[|rings| - 1].bifurcations
  }

  lemma {:induction false} CountBelowStep(core: Point, minutiae: seq<Point>, b: int, t: MinutiaType, n: nat)
    requires b > 0
    ensures CountBelow(core, minutiae, b, t, n + 1) == CountBelow(core, minutiae, b, t, n) + CountIn(core, minutiae, b, t, n)
  {
    if minutiae != [] {
      CountBelowStep(core, minutiae[..|minutiae| - 1], b, t, n);
    }
  }

  lemma {:induction false} CountBelowAll(core: Point, minutiae: seq<Point>, b: int, t: MinutiaType, n: nat)
    requires b > 0
    requires forall p :: p in minutiae ==> RingIndex(SqDist(core, p), b) < n
    ensures CountBelow(core, minutiae, b, t, n) == CountKind(minutiae, t)
  {
    if minutiae != [] {
      var init := minutiae[..|minutiae| - 1];
      assert forall p :: p in init ==> p in minutiae;
      CountBelowAll(core, init, b, t, n);
      assert minutiae[|minutiae| - 1] in minutiae;
    }
  }

  lemma {:induction false} CountedPrefix(core: Point, minutiae: seq<Point>, b: int, t: MinutiaType, n: nat)
    requires |minutiae| > 0 && b > 0 && t != Core && n <= RingCount(core, minutiae, b)
    ensures Counted(CircularFeature(core, minutiae, b)[..n], t) == CountBelow(core, minutiae, b, t, n)
  {
    var rings := CircularFeature(core, minutiae, b);
    if n > 0 {
      CountedPrefix(core, minutiae, b, t, n - 1);
      assert rings[..n][..n - 1] == rings[..n - 1];
      CountBelowStep(core, minutiae, b, t, n - 1);
    } else {
      CountBelowNone(core, minutiae, b, t);
    }
  }

  lemma {:induction false} CountBelowNone(core: Point, minutiae: seq<Point>, b: int, t: MinutiaType)
    requires b > 0
    ensures CountBelow(core, minutiae, b, t, 0) == 0
  {
    if minutiae != [] {
      CountBelowNone(core, minutiae[..|minutiae| - 1], b, t);
    }
  }

  lemma {:induction false} TotalSplits(rings: seq<Ring>)
    ensures Total(rings) == Counted(rings, Termination) + Counted(rings, Bifurcation)
  {
    if rings != [] {
      TotalSplits(rings[..|rings| - 1]);
    }
  }

  /** Each termination and each bifurcation is counted exactly once, under its
      own type; Core points are not counted. So the counters of each type sum
      to the number of points of that type, and all counters together to the
      number of terminations plus bifurcations. */
  lemma CountersMatchPoints(core: Point, minutiae: seq<Point>, b: int)
    requires |minutiae| > 0 && b > 0
    ensures Counted(CircularFeature(core, minutiae, b), Termination) == CountKind(minutiae, Termination)
    ensures Counted(CircularFeature(core, minutiae, b), Bifurcation) == CountKind(minutiae, Bifurcation)
    ensures Total(CircularFeature(core, minutiae, b)) == CountKind(minutiae, Termination) + CountKind(minutiae, Bifurcation)
  {
    var rings, n := CircularFeature(core, minutiae, b), RingCount(core, minutiae, b);
    assert rings[..n] == rings;
    forall p | p in minutiae ensures RingIndex(SqDist(core, p), b) < n {
      RingIndexInRange(core, minutiae, b, p);
    }
    CountedPrefix(core, minutiae, b, Termination, n);
    CountedPrefix(core, minutiae, b, Bifurcation, n);
    CountBelowAll(core, minutiae, b, Termination, n);
    CountBelowAll(core, minutiae, b, Bifurcation, n);
    TotalSplits(rings);
  }

  /** A core and one termination: the termination is counted once, in ring
      floor(d / b), every other counter is 0, and there are floor(d / b) + 1 rings. */
  lemma SingleTermination(core: Point, p: Point, b: int)
    requires core.kind == Core && p.kind == Termination && b > 0
    ensures var k := RingIndex(SqDist(core, p), b);
      && |CircularFeature(core, [core, p], b)| == k + 1
      && forall r :: 0 <= r <= k ==>
           CircularFeature(core, [core, p], b)[r] == if r == k then Ring(1, 0) else Ring(0, 0)
  {
    var pts, k := [core, p], RingIndex(SqDist(core, p), b);
    assert Distances(core, pts) == [0, SqDist(core, p)];
    assert SeqMax(Distances(core, pts)) == SqDist(core, p);
    assert pts[..1] == [core] && [core][..0] == [];
    forall r | 0 <= r <= k
      ensures CircularFeature(core, pts, b)[r] == if r == k then Ring(1, 0) else Ring(0, 0)
    {
      assert CountIn(core, [core], b, Termination, r) == 0;
      assert CountIn(core, [core], b, Bifurcation, r) == 0;
      assert CountIn(core, pts, b, Termination, r) == if r == k then 1 else 0;
      assert CountIn(core, pts, b, Bifurcation, r) == 0;
    }
  }

  // ---------------------------------------------------------------------------
  // The encoders
  // ---------------------------------------------------------------------------

  /** One more point in the list adds one to its own ring's counter of its own
      type and leaves every other counter as it was. */
  lemma CountInStep(core: Point, minutiae: seq<Point>, b: int, i: nat)
    requires b > 0 && i < |minutiae|
    ensures forall t, k ::
              CountIn(core, minutiae[..i + 1], b, t, k)
              == CountIn(core, minutiae[..i], b, t, k)
                 + (if minutiae[i].kind == t && RingIndex(SqDist(core, minutiae[i]), b) == k then 1 else 0)
  {
    assert minutiae[..i + 1][..i] == minutiae[..i];
  }

  /** The counting loop of the circular encoder: each termination or bifurcation
      adds one to the counter of the ring its distance falls in. */
  method Tally(core: Point, minutiae: seq<Point>, b: int, dist: seq<nat>, zero: seq<Ring>)
    returns (feat: seq<Ring>)
    requires b > 0 && |minutiae| > 0 && dist == Distances(core, minutiae)
    requires |zero| == RingCount(core, minutiae, b) && forall k :: 0 <= k < |zero| ==> zero[k] == Ring(0, 0)
    ensures feat == CircularFeature(core, minutiae, b)
  {
    feat := zero;
    var rings := |zero|;
    var i := 0;
    while i < |dist|
      invariant 0 <= i <= |dist| && |feat| == rings
      invariant forall k :: 0 <= k < rings ==>
        feat[k] == Ring(CountIn(core, minutiae[..i], b, Termination, k),
                        CountIn(core, minutiae[..i], b, Bifurcation, k))
    {
      var t := minutiae[i].kind;
      CountInStep(core, minutiae, b, i);
      if t == Termination || t == Bifurcation {
        RingIndexInRange(core, minutiae, b, minutiae[i]);
        var k := RingIndex(dist[i], b);
        feat := feat[k := if t == Termination then feat[k].(terminations := feat[k].terminations + 1)
                                              else feat[k].(bifurcations := feat[k].bifurcations + 1)];
      }
      i := i + 1;
    }
    assert minutiae[..i] == minutiae;
  }

  /** The ring histogram around the first Core point, with rings of width bucketSize. */
  method ExtractCircular(minutiae: seq<Point>, bucketSize: int) returns (r: Result<seq<Ring>>)
    requires bucketSize > 0
    ensures r.Err? <==> GetCore(minutiae).None?
    ensures r.Err? ==> r.error == MissingCorePoint
    ensures r.Ok? ==> |minutiae| > 0 && r.value == CircularFeature(GetCore(minutiae).value, minutiae, bucketSize)
  {
    var found := GetCore(minutiae);
    if found.None? {
      return Err(MissingCorePoint);
    }
    var core := found.value;
    GetCoreInList(minutiae);

    var dist: seq<nat> := [];
    var i := 0;
    while i < |minutiae|
      invariant 0 <= i <= |minutiae|
      invariant dist == Distances(core, minutiae[..i])
    {
      dist := dist + [SqDist(core, minutiae[i])];
      i := i + 1;
    }
    assert minutiae[..i] == minutiae;

    var rings := RingIndex(SeqMax(dist), bucketSize) + 1;
    var feat: seq<Ring> := [];
    while |feat| < rings
      invariant |feat| <= rings
      invariant forall k :: 0 <= k < |feat| ==> feat[k] == Ring(0, 0)
    {
      feat := feat + [Ring(0, 0)];
    }

    feat := Tally(core, minutiae, bucketSize, dist, feat);
    return Ok(feat);
  }

  /** Computes the feature vector named by tag and returns it with the tag. */
  method Extract(minutiae: seq<Point>, tag: string, bucketSize: Option<int>) returns (r: Result<(seq<Ring>, string)>)
    requires tag == "circular" && bucketSize.Some? ==> bucketSize.value > 0
    ensures tag != "polar" && tag != "circular" ==> r == Err(Unsupported(tag))
    ensures tag == "circular" && bucketSize.None? ==> r == Err(MissingParameter)
    ensures tag == "polar" ==> r == Err(if GetCore(minutiae).None? then MissingCorePoint else PolarShapeMissing)
    ensures tag == "circular" && bucketSize.Some? && GetCore(minutiae).None? ==> r == Err(MissingCorePoint)
    ensures tag == "circular" && bucketSize.Some? && GetCore(minutiae).Some? ==>
      |minutiae| > 0 && r == Ok((CircularFeature(GetCore(minutiae).value, minutiae, bucketSize.value), tag))
    ensures r.Ok? ==> r.value.1 == tag
  {
    if tag == "polar" {
      // the polar encoder looks the core up and then fails allocating its result
      if GetCore(minutiae).None? {
        return Err(MissingCorePoint);
      }
      return Err(PolarShapeMissing);
    } else if tag == "circular" {
      if bucketSize.None? {
        return Err(MissingParameter);
      }
      var features := ExtractCircular(minutiae, bucketSize.value);
      if features.Err? {
        return Err(features.error);
      }
      return Ok((features.value, tag));
    } else {
      return Err(Unsupported(tag));
    }
  }
}
