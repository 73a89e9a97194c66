/**
 * Overlap relaxation of the colour wheel (frontend/src/components/TracksColorWheel.js,
 * `checkOverlap` and the `while`/`for`/`for` loop of `resolveOverlaps`). Each pass visits
 * every pair (i, j) with i < j in row order and, when the pair is flagged and too close,
 * pushes the two covers apart in place. The thresholds are stated on squared distances;
 * `Math.sqrt` is a parameter of which only positivity on positive arguments is assumed.
 */
module Relaxation {
  import opened ColorWheelLayout
  import opened HsvConversion

  const MaxIterations: nat := 50
  const RepulsionFactor: real := 1.0

  /** `Math.sqrt`, left uninterpreted; lemmas that need it state what they assume of it. */
  type Sqrt = real -> real

  /** Both coordinates are numbers (not NaN). */
  predicate Placed(p: Placement)
  {
    p.x.Finite? && p.y.Finite?
  }

  /** The part of a placement relaxation must not touch: all but `x` and `y`. */
  function Frame(p: Placement): Placement
  {
    p.(x := NaN, y := NaN)
  }

  function DistSq(a: Placement, b: Placement): real
    requires Placed(a) && Placed(b)
  {
    (a.x.val - b.x.val) * (a.x.val - b.x.val) + (a.y.val - b.y.val) * (a.y.val - b.y.val)
  }

  /**
   * `checkOverlap(a, b)`: the squared distance is below (2 * sqrt 2 * a.size)^2 = 8 * a.size^2.
   * A NaN coordinate makes the comparison false.
   */
  predicate Overlaps(a: Placement, b: Placement)
  {
    Placed(a) && Placed(b) && DistSq(a, b) < 8.0 * a.size * a.size
  }

  /** `distance < minDistance`, with `minDistance = 1 * sqrt 2 * a.size`. */
  predicate TooClose(a: Placement, b: Placement, sqrt: Sqrt)
    requires Placed(a) && Placed(b)
  {
    sqrt(DistSq(a, b)) < 1.0 * sqrt(2.0) * a.size
  }

  /** `root` is a square root of `v` as `Math.sqrt` computes it: non-negative, squaring to `v`. */
  predicate IsRoot(root: real, v: real)
  {
    root >= 0.0 && root * root == v
  }

  /** On non-negative reals, squaring preserves and reflects the order. */
  lemma SquareMonotone(x: real, y: real)
    requires 0.0 <= x && 0.0 <= y
    ensures x < y ==> x * x < y * y
    ensures y <= x ==> y * y <= x * x
  {
    var diff := y * y - x * x;
    assert diff == (y - x) * (y + x);
    if x < y {
      ScaleMonotone(y - x, 0.0, y + x);
    } else if y < x {
      ScaleMonotone(x - y, 0.0, x + y);
      assert x * x - y * y == (x - y) * (x + y);
    }
  }

  /**
   * With the true square root the distance test is a test on squares: two covers are too
   * close exactly when their squared distance is below 2 * size^2.
   */
  lemma TooCloseBySquares(a: Placement, b: Placement, sqrt: Sqrt)
    requires Placed(a) && Placed(b)
    requires IsRoot(sqrt(DistSq(a, b)), DistSq(a, b)) && IsRoot(sqrt(2.0), 2.0)
    ensures TooClose(a, b, sqrt) <==> DistSq(a, b) < 2.0 * a.size * a.size
  {
    var d, m := sqrt(DistSq(a, b)), 1.0 * sqrt(2.0) * a.size;
    assert m * m == 2.0 * a.size * a.size by {
      assert m * m == (sqrt(2.0) * sqrt(2.0)) * (a.size * a.size);
    }
    SquareMonotone(d, m);
  }

  /**
   * The push applied to a flagged, too-close pair: each cover moves along the line between
   * the centres by half the deficit, weighted by the other cover's share of the combined size.
   * A zero distance (coincident centres) gives `0 / 0`, which makes all four coordinates NaN.
   */
  function Push(a: Placement, b: Placement, sqrt: Sqrt): (r: (Placement, Placement))
    requires Placed(a) && Placed(b)
    ensures Frame(r.0) == Frame(a) && Frame(r.1) == Frame(b)
  {
    // dx * dx + dy * dy: the squared distance `checkOverlap` computes, taken the other way round
    var distance := sqrt(DistSq(a, b));
    if distance == 0.0 then
      (a.(x := NaN, y := NaN), b.(x := NaN, y := NaN))
    else
      Separate(a, b, distance, 1.0 * sqrt(2.0) * a.size)
  }

  /** The moves of a push between covers `distance` apart, once `minDistance` is known. */
  function Separate(a: Placement, b: Placement, distance: real, minDistance: real): (r: (Placement, Placement))
    requires Placed(a) && Placed(b) && distance != 0.0
    ensures Frame(r.0) == Frame(a) && Frame(r.1) == Frame(b)
  {
    var dx := b.x.val - a.x.val;
    var dy := b.y.val - a.y.val;
    var dirX := dx / distance;
    var dirY := dy / distance;
    var moveDistance := (minDistance - distance) / 2.0;
    var sizeRatioA := b.size / (a.size + b.size);
    var sizeRatioB := a.size / (a.size + b.size);
    (a.(x := Finite(a.x.val - dirX * moveDistance * sizeRatioA * RepulsionFactor),
        y := Finite(a.y.val - dirY * moveDistance * sizeRatioA * RepulsionFactor)),
     b.(x := Finite(b.x.val + dirX * moveDistance * sizeRatioB * RepulsionFactor),
        y := Finite(b.y.val + dirY * moveDistance * sizeRatioB * RepulsionFactor)))
  }

  /**
   * A push moves the two covers apart along the line between their centres. The size ratios
   * share `moveDistance` between them, so together they move it in full: the offset between
   * the two centres is stretched by (distance + moveDistance) / distance.
   */
  lemma PushSharesDeficit(a: Placement, b: Placement, sqrt: Sqrt)
    requires Placed(a) && Placed(b) && sqrt(DistSq(a, b)) != 0.0
    ensures var r := Push(a, b, sqrt);
      var distance := sqrt(DistSq(a, b));
      var moveDistance := (1.0 * sqrt(2.0) * a.size - distance) / 2.0;
      var stretch := (distance + moveDistance) / distance;
      && Placed(r.0) && Placed(r.1)
      && r.0.x.val - r.1.x.val == stretch * (a.x.val - b.x.val)
      && r.0.y.val - r.1.y.val == stretch * (a.y.val - b.y.val)
  {
    SeparateStretches(a, b, sqrt(DistSq(a, b)), 1.0 * sqrt(2.0) * a.size);
  }

  lemma SeparateStretches(a: Placement, b: Placement, distance: real, minDistance: real)
    requires Placed(a) && Placed(b) && distance != 0.0
    ensures var r := Separate(a, b, distance, minDistance);
      var stretch := (distance + (minDistance - distance) / 2.0) / distance;
      && Placed(r.0) && Placed(r.1)
      && r.0.x.val - r.1.x.val == stretch * (a.x.val - b.x.val)
      && r.0.y.val - r.1.y.val == stretch * (a.y.val - b.y.val)
  {
    var moveDistance := (minDistance - distance) / 2.0;
    MovesApart(a.x.val, b.x.val, distance, moveDistance, a.size, b.size);
    MovesApart(a.y.val, b.y.val, distance, moveDistance, a.size, b.size);
  }

  /**
   * One coordinate of a push: the moves, weighted by the other cover's share of the combined
   * size, add up to `moveDistance` along the direction and so stretch the offset.
   */
  lemma MovesApart(p: real, q: real, distance: real, moveDistance: real, sizeA: real, sizeB: real)
    requires distance != 0.0 && sizeA > 0.0 && sizeB > 0.0
    ensures var dir := (q - p) / distance;
      var ratioA := sizeB / (sizeA + sizeB);
      var ratioB := sizeA / (sizeA + sizeB);
      (p - dir * moveDistance * ratioA * RepulsionFactor) - (q + dir * moveDistance * ratioB * RepulsionFactor)
        == (distance + moveDistance) / distance * (p - q)
  {
    var dir := (q - p) / distance;
    var ratioA := sizeB / (sizeA + sizeB);
    var ratioB := sizeA / (sizeA + sizeB);
    assert ratioA + ratioB == 1.0;
    assert dir * distance == q - p;
    calc {
      (p - dir * moveDistance * ratioA * RepulsionFactor) - (q + dir * moveDistance * ratioB * RepulsionFactor);
      (p - q) - dir * moveDistance * (ratioA + ratioB);
      (p - q) - dir * moveDistance;
      (p - q) + (p - q) / distance * moveDistance;
      (distance + moveDistance) / distance * (p - q);
    }
  }

  /**
   * With the true square root a push leaves the pair at the midpoint of its old distance and
   * `minDistance`; a too-close pair therefore ends strictly farther apart, and still closer
   * than `minDistance`.
   */
  lemma PushHalvesDeficit(a: Placement, b: Placement, sqrt: Sqrt)
    requires Placed(a) && Placed(b) && IsRoot(sqrt(DistSq(a, b)), DistSq(a, b)) && sqrt(DistSq(a, b)) != 0.0
    ensures var r := Push(a, b, sqrt);
      var distance := sqrt(DistSq(a, b));
      var minDistance := 1.0 * sqrt(2.0) * a.size;
      var after := (distance + minDistance) / 2.0;
      && Placed(r.0) && Placed(r.1)
      && DistSq(r.0, r.1) == after * after
      && (TooClose(a, b, sqrt) ==> distance < after < minDistance)
  {
    var r := Push(a, b, sqrt);
    var distance := sqrt(DistSq(a, b));
    var moveDistance := (1.0 * sqrt(2.0) * a.size - distance) / 2.0;
    PushSharesDeficit(a, b, sqrt);
    StretchedLength(a.x.val - b.x.val, a.y.val - b.y.val, r.0.x.val - r.1.x.val, r.0.y.val - r.1.y.val,
                    distance, moveDistance);
  }

  /** Stretching a vector of length `d` by (d + m) / d gives a vector of length d + m. */
  lemma StretchedLength(dx: real, dy: real, ex: real, ey: real, d: real, m: real)
    requires d != 0.0 && d * d == dx * dx + dy * dy
    requires ex == (d + m) / d * dx && ey == (d + m) / d * dy
    ensures ex * ex + ey * ey == (d + m) * (d + m)
  {
    var stretch := (d + m) / d;
    calc {
      (stretch * dx) * (stretch * dx) + (stretch * dy) * (stretch * dy);
      (stretch * stretch) * (dx * dx + dy * dy);
      (stretch * d) * (stretch * d);
      { assert stretch * d == d + m; }
      (d + m) * (d + m);
    }
  }

  /** The visit of pair (i, j) within a pass. */
  function Step(ps: seq<Placement>, i: nat, j: nat, sqrt: Sqrt): (r: seq<Placement>)
    requires i < j < |ps|
    ensures |r| == |ps|
    ensures forall k :: 0 <= k < |ps| ==> Frame(r[k]) == Frame(ps[k])
    ensures forall k :: 0 <= k < |ps| && k != i && k != j ==> r[k] == ps[k]
  {
    if Overlaps(ps[i], ps[j]) && TooClose(ps[i], ps[j], sqrt) then
      var pushed := Push(ps[i], ps[j], sqrt);
      ps[i := pushed.0][j := pushed.1]
    else ps
  }

  /**
   * A pair flagged as overlapping but not closer than sqrt 2 * size sets `hasOverlap`
   * and is left where it is (with the true square root of the two distances involved).
   */
  lemma FlaggedWithoutMoving(ps: seq<Placement>, i: nat, j: nat, sqrt: Sqrt)
    requires i < j < |ps|
    requires Placed(ps[i]) && Placed(ps[j])
    requires IsRoot(sqrt(DistSq(ps[i], ps[j])), DistSq(ps[i], ps[j])) && IsRoot(sqrt(2.0), 2.0)
    requires var s := ps[i].size; 2.0 * s * s <= DistSq(ps[i], ps[j]) < 8.0 * s * s
    ensures Overlaps(ps[i], ps[j]) && Step(ps, i, j, sqrt) == ps
  {
    TooCloseBySquares(ps[i], ps[j], sqrt);
  }

  /** Row `i` of a pass up to, not including, pair (i, j): the inner `for` loop's prefix. */
  function RowUpTo(ps: seq<Placement>, i: nat, j: nat, sqrt: Sqrt): (r: seq<Placement>)
    requires i < j <= |ps|
    ensures |r| == |ps|
    ensures forall k :: 0 <= k < |ps| ==> Frame(r[k]) == Frame(ps[k])
    decreases j
  {
    if j == i + 1 then ps else Step(RowUpTo(ps, i, j - 1, sqrt), i, j - 1, sqrt)
  }

  /** Row `i`: pairs (i, j) for every j > i, in increasing j. */
  function Row(ps: seq<Placement>, i: nat, sqrt: Sqrt): (r: seq<Placement>)
    requires i < |ps|
    ensures |r| == |ps|
    ensures forall k :: 0 <= k < |ps| ==> Frame(r[k]) == Frame(ps[k])
  {
    RowUpTo(ps, i, |ps|, sqrt)
  }

  /** The rows before row `i`: the outer `for` loop's prefix. */
  function PassUpTo(ps: seq<Placement>, i: nat, sqrt: Sqrt): (r: seq<Placement>)
    requires i <= |ps|
    ensures |r| == |ps|
    ensures forall k :: 0 <= k < |ps| ==> Frame(r[k]) == Frame(ps[k])
    decreases i
  {
    if i == 0 then ps else Row(PassUpTo(ps, i - 1, sqrt), i - 1, sqrt)
  }

  /** One pass of the `while` body over all pairs. */
  function Pass(ps: seq<Placement>, sqrt: Sqrt): (r: seq<Placement>)
    ensures |r| == |ps|
    ensures forall k :: 0 <= k < |ps| ==> Frame(r[k]) == Frame(ps[k])
  {
    PassUpTo(ps, |ps|, sqrt)
  }

  /**
   * The placements after `k` passes. Relaxation keeps the number and order of the placements
   * and everything but their positions.
   */
  function Iterate(ps: seq<Placement>, k: nat, sqrt: Sqrt): (r: seq<Placement>)
    ensures |r| == |ps|
    ensures forall m :: 0 <= m < |ps| ==> Frame(r[m]) == Frame(ps[m])
  {
    if k == 0 then ps else Pass(Iterate(ps, k - 1, sqrt), sqrt)
  }

  /** Some pair is flagged by `checkOverlap`. */
  predicate HasOverlap(ps: seq<Placement>)
  {
    exists p, q :: 0 <= p < q < |ps| && Overlaps(ps[p], ps[q])
  }

  /** Pass number `m` (counting from 0) of a run started on `init` flagged some pair. */
  ghost predicate PassFlagged(init: seq<Placement>, m: nat, sqrt: Sqrt)
  {
    HasOverlap(Iterate(init, m, sqrt))
  }

  /** No pair visited before (i, j) in row order is flagged. */
  ghost predicate ClearBefore(ps: seq<Placement>, i: int, j: int)
  {
    forall p, q :: 0 <= p < q < |ps| && (p < i || (p == i && q < j)) ==> !Overlaps(ps[p], ps[q])
  }

  lemma {:induction false} RowUpToClear(ps: seq<Placement>, i: nat, j: nat, sqrt: Sqrt)
    requires i < j <= |ps|
    requires !HasOverlap(ps)
    ensures RowUpTo(ps, i, j, sqrt) == ps
    decreases j
  {
    if j > i + 1 {
      RowUpToClear(ps, i, j - 1, sqrt);
      assert !Overlaps(ps[i], ps[j - 1]);
    }
  }

  lemma {:induction false} PassUpToClear(ps: seq<Placement>, i: nat, sqrt: Sqrt)
    requires i <= |ps|
    requires !HasOverlap(ps)
    ensures PassUpTo(ps, i, sqrt) == ps
    decreases i
  {
    if i > 0 {
      PassUpToClear(ps, i - 1, sqrt);
      RowUpToClear(ps, i - 1, |ps|, sqrt);
    }
  }

  /** A pass over placements of which no pair is flagged moves nothing. */
  lemma ClearPassIsIdentity(ps: seq<Placement>, sqrt: Sqrt)
    requires !HasOverlap(ps)
    ensures Pass(ps, sqrt) == ps
  {
    PassUpToClear(ps, |ps|, sqrt);
  }

  /** Row `i` of a pass, pairs (i, j) for j > i: the inner `for` loop. */
  method RelaxRow(positionInfo: array<Placement>, i: nat, sqrt: Sqrt) returns (flagged: bool)
    requires i < positionInfo.Length
    modifies positionInfo
    ensures positionInfo[..] == Row(old(positionInfo[..]), i, sqrt)
    ensures flagged ==> exists q :: i < q < positionInfo.Length && Overlaps(old(positionInfo[i]), old(positionInfo[q]))
    ensures !flagged ==>
      && positionInfo[..] == old(positionInfo[..])
      && forall q :: i < q < positionInfo.Length ==> !Overlaps(old(positionInfo[i]), old(positionInfo[q]))
  {
    ghost var start := positionInfo[..];
    var n := positionInfo.Length;
    flagged := false;
    for j := i + 1 to n
      invariant positionInfo[..] == RowUpTo(start, i, j, sqrt)
      invariant flagged ==> exists q :: i < q < n && Overlaps(start[i], start[q])
      invariant !flagged ==> positionInfo[..] == start && forall q :: i < q < j ==> !Overlaps(start[i], start[q])
    {
      ghost var before := positionInfo[..];
      var circleA, circleB := positionInfo[i], positionInfo[j];
      if Overlaps(circleA, circleB) {
        if !flagged {
          assert Overlaps(start[i], start[j]);
        }
        flagged := true;
        if TooClose(circleA, circleB, sqrt) {
          var pushed := Push(circleA, circleB, sqrt);
          positionInfo[i] := pushed.0;
          positionInfo[j] := pushed.1;
        }
      }
      assert positionInfo[..] == Step(before, i, j, sqrt);
    }
  }

  /** One pass: every row in turn, the outer `for` loop. */
  method RelaxPass(positionInfo: array<Placement>, sqrt: Sqrt) returns (hasOverlap: bool)
    modifies positionInfo
    ensures positionInfo[..] == Pass(old(positionInfo[..]), sqrt)
    ensures hasOverlap <==> HasOverlap(old(positionInfo[..]))
  {
    ghost var start := positionInfo[..];
    var n := positionInfo.Length;
    hasOverlap := false;
    for i := 0 to n
      invariant positionInfo[..] == PassUpTo(start, i, sqrt)
      invariant hasOverlap ==> HasOverlap(start)
      invariant !hasOverlap ==> positionInfo[..] == start && ClearBefore(start, i, i + 1)
    {
      var flagged := RelaxRow(positionInfo, i, sqrt);
      if flagged {
        hasOverlap := true;
      }
    }
  }

  /**
   * `resolveOverlaps`' relaxation loop on `positionInfo`, updated in place. Returns the pass
   * counter `iterations`. Passes stop after the first one that flags no pair (which, flagging
   * nothing, moved nothing) or after 50 passes; every earlier pass flagged some pair.
   */
  method ResolveOverlaps(positionInfo: array<Placement>, sqrt: Sqrt) returns (iterations: nat)
    modifies positionInfo
    ensures 1 <= iterations <= MaxIterations
    ensures positionInfo[..] == Iterate(old(positionInfo[..]), iterations, sqrt)
    ensures forall m :: 0 <= m < iterations - 1 ==> PassFlagged(old(positionInfo[..]), m, sqrt)
    ensures iterations < MaxIterations ==>
      && !PassFlagged(old(positionInfo[..]), iterations - 1, sqrt)
      && positionInfo[..] == Iterate(old(positionInfo[..]), iterations - 1, sqrt)
  {
    ghost var init := positionInfo[..];
    iterations := 0;
    var hasOverlap := true;
    while hasOverlap && iterations < MaxIterations
      invariant 0 <= iterations <= MaxIterations
      invariant positionInfo[..] == Iterate(init, iterations, sqrt)
      invariant hasOverlap <==> iterations == 0 || PassFlagged(init, iterations - 1, sqrt)
      invariant forall m :: 0 <= m < iterations - 1 ==> PassFlagged(init, m, sqrt)
      decreases MaxIterations - iterations
    {
      hasOverlap := RelaxPass(positionInfo, sqrt);
      iterations := iterations + 1;
    }
    if iterations < MaxIterations {
      ClearPassIsIdentity(Iterate(init, iterations - 1, sqrt), sqrt);
    }
  }
}
