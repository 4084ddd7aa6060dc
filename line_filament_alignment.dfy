/** `LineFilamentAlignment.fillHoles` and its `Filler`: long holes between
    consecutive points of a staff-line filament are filled with virtual points,
    interpolated from the nearest sibling filaments above and below when both
    exist, taken from the filament's own curve otherwise. The spline fit,
    `findPoint`, `getPositionAt` and `Scale.toPixels` are given as functions. */
module LineFilamentAlignment {
  import opened Wrappers

  datatype Point = Point(x: real, y: real)

  /** The fitted curve of a filament, as its ordinate at a given abscissa
      (`getPositionAt` in horizontal orientation). */
  type Curve = real -> real

  /** The two constants, in interline units. */
  const VIRTUAL_SEGMENT_LENGTH: real := 6.0
  const MAX_HOLE_LENGTH: real := 8.0

  /** `Math.rint`: the integer nearest to `r`, the even one on a tie. */
  function Rint(r: real): (n: int)
    ensures r - 0.5 <= n as real <= r + 0.5
  {
    var f := (r + 0.5).Floor;
    if f as real == r + 0.5 && f % 2 != 0 then f - 1 else f
  }

  /** On a tie, `Rint` picks the even neighbour. */
  lemma RintTiesToEven(r: real)
    requires (r + 0.5).Floor as real == r + 0.5
    ensures Rint(r) % 2 == 0 && (Rint(r) as real == r + 0.5 || Rint(r) as real == r - 0.5)
  {
  }

  /** Off a tie, `Rint` is the unique integer within a half of `r`. */
  lemma RintNearest(r: real, m: int)
    requires r - 0.5 < m as real < r + 0.5
    ensures Rint(r) == m
  {
  }

  lemma RintOfInteger(n: int)
    ensures Rint(n as real) == n
  {
  }

  /** Rounding never reverses the order of two reals. */
  lemma RintMonotonic(r: real, s: real)
    requires r <= s
    ensures Rint(r) <= Rint(s)
  {
  }

  /** A sibling filament: its rank in the cluster (`getClusterPos`) and the
      `findPoint(x, HORIZONTAL, margin)` of its alignment. */
  datatype LineFilament = LineFilament(clusterPos: int, findPoint: (int, int) -> Option<Point>)

  /** A reference point together with the cluster rank of its filament. */
  datatype Neighbor = Neighbor(pos: int, point: Point)

  predicate Hit(f: LineFilament, x: int, margin: int)
  {
    f.findPoint(x, margin).Some?
  }

  function NeighborAt(f: LineFilament, x: int, margin: int): Neighbor
    requires Hit(f, x, margin)
  {
    Neighbor(f.clusterPos, f.findPoint(x, margin).value)
  }

  /** The first filament at index `i` or above that offers a reference. */
  function HitUp(fils: seq<LineFilament>, x: int, margin: int, i: nat): (r: Option<nat>)
    requires i <= |fils|
    decreases |fils| - i
    ensures r.None? <==> forall k :: i <= k < |fils| ==> !Hit(fils[k], x, margin)
    ensures r.Some? ==>
      i <= r.value < |fils| && Hit(fils[r.value], x, margin) &&
      forall k :: i <= k < r.value ==> !Hit(fils[k], x, margin)
  {
    if i == |fils| then None
    else if Hit(fils[i], x, margin) then Some(i)
    else HitUp(fils, x, margin, i + 1)
  }

  /** The first filament at index `i` or below that offers a reference. */
  function HitDown(fils: seq<LineFilament>, x: int, margin: int, i: int): (r: Option<nat>)
    requires -1 <= i < |fils|
    decreases i + 1
    ensures r.None? <==> forall k :: 0 <= k <= i ==> !Hit(fils[k], x, margin)
    ensures r.Some? ==>
      r.value <= i && Hit(fils[r.value], x, margin) &&
      forall k :: r.value < k <= i ==> !Hit(fils[k], x, margin)
  {
    if i == -1 then None
    else if Hit(fils[i], x, margin) then Some(i)
    else HitDown(fils, x, margin, i - 1)
  }

  /** `findNeighbor`: browsing `subfils` upwards from its start when `dir` is
      positive, downwards from its end otherwise, the first filament that
      offers a reference point near abscissa `x`. */
  function FindNeighbor(subfils: seq<LineFilament>, dir: int, x: int, margin: int): (r: Option<Neighbor>)
    requires dir == 1 || dir == -1
    ensures r.None? <==> forall k :: 0 <= k < |subfils| ==> !Hit(subfils[k], x, margin)
    ensures r.Some? ==> exists k :: (0 <= k < |subfils| && Hit(subfils[k], x, margin) &&
      r.value == NeighborAt(subfils[k], x, margin) &&
      (dir > 0 ==> forall j :: 0 <= j < k ==> !Hit(subfils[j], x, margin)) &&
      (dir < 0 ==> forall j :: k < j < |subfils| ==> !Hit(subfils[j], x, margin)))
  {
    var k := if dir > 0 then HitUp(subfils, x, margin, 0) else HitDown(subfils, x, margin, |subfils| - 1);
    if k.Some? then Some(NeighborAt(subfils[k.value], x, margin)) else None
  }

  /** No two filaments of the collection share a cluster rank. */
  predicate DistinctRanks(fils: seq<LineFilament>)
  {
    forall i, j :: 0 <= i < j < |fils| ==> fils[i].clusterPos != fils[j].clusterPos
  }

  /** The weighted mean of the two references, by the distance of `pos` to
      their ranks. */
  function Interpolate(pos: int, one: Neighbor, two: Neighbor): Point
    requires one.pos != two.pos
  {
    var ratio := (pos - one.pos) as real / (two.pos - one.pos) as real;
    Point((1.0 - ratio) * one.point.x + ratio * two.point.x,
          (1.0 - ratio) * one.point.y + ratio * two.point.y)
  }

  /** `findInsertion`: interpolate between the nearest reference above (among
      the filaments before index `pos`) and the nearest reference below (among
      those after it); nothing when either is missing. What it finds is stated
      by `FindInsertionFound`. */
  function FindInsertion(x: int, pos: int, fils: seq<LineFilament>, margin: int): Option<Point>
    requires 0 <= pos < |fils| && DistinctRanks(fils)
  {
    var one := FindNeighbor(fils[..pos], -1, x, margin);
    if one.None? then None
    else
      var two := FindNeighbor(fils[pos + 1..], 1, x, margin);
      if two.None? then None
      else
        NeighborsAroundPos(x, pos, fils, margin);
        Some(Interpolate(pos, one.value, two.value))
  }

  /** `FindInsertion` gives nothing exactly when no filament above, or none
      below, offers a reference; otherwise it interpolates between the
      nearest reference above and the nearest one below. */
  lemma FindInsertionFound(x: int, pos: int, fils: seq<LineFilament>, margin: int)
    requires 0 <= pos < |fils| && DistinctRanks(fils)
    ensures FindInsertion(x, pos, fils, margin).None? <==>
      (forall k :: 0 <= k < pos ==> !Hit(fils[k], x, margin)) ||
      (forall k :: pos < k < |fils| ==> !Hit(fils[k], x, margin))
    ensures FindInsertion(x, pos, fils, margin).Some? ==> exists a, b ::
      0 <= a < pos < b < |fils| && Hit(fils[a], x, margin) && Hit(fils[b], x, margin) &&
      (forall k :: a < k < pos ==> !Hit(fils[k], x, margin)) &&
      (forall k :: pos < k < b ==> !Hit(fils[k], x, margin)) &&
      fils[a].clusterPos != fils[b].clusterPos &&
      FindInsertion(x, pos, fils, margin).value ==
        Interpolate(pos, NeighborAt(fils[a], x, margin), NeighborAt(fils[b], x, margin))
  {
    var one := FindNeighbor(fils[..pos], -1, x, margin);
    assert forall k :: 0 <= k < pos ==> fils[k] == fils[..pos][k];
    if one.Some? {
      var two := FindNeighbor(fils[pos + 1..], 1, x, margin);
      assert forall k :: pos < k < |fils| ==> fils[k] == fils[pos + 1..][k - pos - 1];
      if two.Some? {
        NeighborsAroundPos(x, pos, fils, margin);
      }
    }
  }

  /** The two references found around `pos` come from filaments on either
      side of it, the nearest ones that offer a point. */
  lemma NeighborsAroundPos(x: int, pos: int, fils: seq<LineFilament>, margin: int)
    requires 0 <= pos < |fils| && DistinctRanks(fils)
    requires FindNeighbor(fils[..pos], -1, x, margin).Some?
    requires FindNeighbor(fils[pos + 1..], 1, x, margin).Some?
    ensures exists a, b ::
      0 <= a < pos < b < |fils| && Hit(fils[a], x, margin) && Hit(fils[b], x, margin) &&
      (forall k :: a < k < pos ==> !Hit(fils[k], x, margin)) &&
      (forall k :: pos < k < b ==> !Hit(fils[k], x, margin)) &&
      fils[a].clusterPos != fils[b].clusterPos &&
      FindNeighbor(fils[..pos], -1, x, margin).value == NeighborAt(fils[a], x, margin) &&
      FindNeighbor(fils[pos + 1..], 1, x, margin).value == NeighborAt(fils[b], x, margin)
  {
    var above := fils[..pos];
    var below := fils[pos + 1..];
    var a := HitDown(above, x, margin, |above| - 1).value;
    var c := HitUp(below, x, margin, 0).value;
    assert FindNeighbor(above, -1, x, margin).value == NeighborAt(above[a], x, margin);
    assert FindNeighbor(below, 1, x, margin).value == NeighborAt(below[c], x, margin);
    var b := pos + 1 + c;
    assert above[a] == fils[a] && below[c] == fils[b];
    assert forall k :: a < k < pos ==> fils[k] == above[k];
    assert forall k :: pos < k < b ==> fils[k] == below[k - pos - 1];
  }

  /** What a call of `fillHoles` works with: the filament's index `pos` in the
      collection `fils` of parallel filaments, the two lengths in pixels, the
      filament's curve as it stands when the call starts, and the rounding it
      applies (`FillHoles` passes `Rint`; the splice proofs need not look
      inside it). */
  datatype Context = Context(pos: int, fils: seq<LineFilament>, maxHoleLength: int, virtualLength: int,
                             line: Curve, rint: real -> int)

  predicate ValidContext(ctx: Context)
  {
    0 <= ctx.pos < |ctx.fils| && DistinctRanks(ctx.fils) && ctx.virtualLength > 0
  }

  /** The virtual point for abscissa `x`: the interpolated one when both
      references exist, the point of the filament's own curve otherwise. */
  function VirtualPointAt(x: int, ctx: Context): Point
    requires ValidContext(ctx)
  {
    match FindInsertion(x, ctx.pos, ctx.fils, ctx.virtualLength / 2)
    case Some(p) => p
    case None => Point(x as real, ctx.line(x as real))
  }

  /** How many points a hole of the given length receives: none unless it is
      longer than the maximum, else one less than the rounded number of virtual
      segments it spans, and none when that is not positive. */
  function InsertCount(holeLength: real, ctx: Context): (n: nat)
    requires ctx.virtualLength > 0
    ensures holeLength <= ctx.maxHoleLength as real ==> n == 0
    ensures holeLength > ctx.maxHoleLength as real && SegmentCount(holeLength, ctx) - 1 > 0 ==>
      n == SegmentCount(holeLength, ctx) - 1
    ensures SegmentCount(holeLength, ctx) - 1 <= 0 ==> n == 0
  {
    if holeLength > ctx.maxHoleLength as real then
      var insert := SegmentCount(holeLength, ctx) - 1;
      if insert > 0 then insert else 0
    else 0
  }

  /** The rounded number of virtual segments a hole `holeLength` long spans. */
  function SegmentCount(holeLength: real, ctx: Context): int
    requires ctx.virtualLength > 0
  {
    ctx.rint(holeLength / ctx.virtualLength as real)
  }

  /** The spacing of `n` points spread evenly over a hole `holeLength` long. */
  function Spacing(holeLength: real, n: nat): real
  {
    holeLength / (n + 1) as real
  }

  /** The abscissa of the `i`-th point, `dx` apart, after `holeStart`. */
  function Abscissa(rint: real -> int, holeStart: real, dx: real, i: int): int
  {
    rint(holeStart + i as real * dx)
  }

  /** The virtual points inserted into the hole between abscissae `a` and `b`. */
  function GapFill(a: real, b: real, ctx: Context): (r: seq<Point>)
    requires ValidContext(ctx)
    ensures |r| == InsertCount(b - a, ctx)
  {
    var n := InsertCount(b - a, ctx);
    seq(n, i requires 0 <= i < n => VirtualPointAt(Abscissa(ctx.rint, a, Spacing(b - a, n), i + 1), ctx))
  }

  /** A rule giving the points to insert into the hole between two abscissae. */
  type GapFiller = (real, real) -> seq<Point>

  /** The rule `fillHoles` applies in a given context. */
  function FillRule(ctx: Context): GapFiller
    requires ValidContext(ctx)
  {
    (a, b) => GapFill(a, b, ctx)
  }

  /** The first `k` original points with the holes between them filled: the
      list `fillHoles` has built once its scan has passed point `k - 1`. */
  function Processed(ps: seq<Point>, k: nat, fill: GapFiller): (r: seq<Point>)
    requires k <= |ps|
    ensures |r| >= k
  {
    if k <= 1 then ps[..k]
    else Processed(ps, k - 1, fill) + fill(ps[k - 2].x, ps[k - 1].x) + [ps[k - 1]]
  }

  /** The point list once every hole between consecutive original points has
      received its virtual points, in order, just before the point closing it. */
  function Filled(ps: seq<Point>, fill: GapFiller): seq<Point>
  {
    Processed(ps, |ps|, fill)
  }

  /** Once the first `k` original points are processed, splicing the hole
      before point `k` gives the list with `k + 1` points processed. */
  lemma ProcessedAdvance(orig: seq<Point>, k: nat, fill: GapFiller, pts: seq<Point>, ip: nat, filled: seq<Point>)
    requires 1 <= k < |orig|
    requires pts == Processed(orig, k, fill) + orig[k..] && ip == |Processed(orig, k, fill)|
    requires ip <= |pts| ==> filled == pts[..ip] + fill(orig[k - 1].x, orig[k].x) + pts[ip..]
    ensures ip <= |pts|
    ensures filled == Processed(orig, k + 1, fill) + orig[k + 1..]
    ensures |Processed(orig, k + 1, fill)| == ip + |fill(orig[k - 1].x, orig[k].x)| + 1
  {
    assert pts[..ip] == Processed(orig, k, fill) && pts[ip..] == orig[k..];
    assert orig[k..] == [orig[k]] + orig[k + 1..];
  }

  /** Processing the first point only leaves the list as it is. */
  lemma ProcessedStart(orig: seq<Point>, fill: GapFiller)
    requires |orig| > 0
    ensures orig == Processed(orig, 1, fill) + orig[1..] && |Processed(orig, 1, fill)| == 1
  {
    assert orig == orig[..1] + orig[1..];
  }

  /** Processing fewer points gives a prefix of the result. */
  lemma {:induction false} ProcessedPrefix(ps: seq<Point>, j: nat, k: nat, fill: GapFiller)
    requires j <= k <= |ps|
    ensures Processed(ps, j, fill) <= Processed(ps, k, fill)
    decreases k
  {
    if j < k {
      ProcessedPrefix(ps, j, k - 1, fill);
      if k == 1 {
        assert ps[..0] <= ps[..1];
      }
    }
  }

  /** Where original point `k` ends up once every hole is filled. */
  function OriginalIndex(ps: seq<Point>, k: nat, fill: GapFiller): nat
    requires k < |ps|
  {
    |Processed(ps, k + 1, fill)| - 1
  }

  /** Original point `k` is kept, at its index in the filled list. */
  lemma OriginalKept(ps: seq<Point>, k: nat, fill: GapFiller)
    requires k < |ps|
    ensures OriginalIndex(ps, k, fill) < |Filled(ps, fill)|
    ensures Filled(ps, fill)[OriginalIndex(ps, k, fill)] == ps[k]
  {
    ProcessedPrefix(ps, k + 1, |ps|, fill);
  }

  /** Between original points `k - 1` and `k` lie exactly the virtual points
      of the hole they bound. */
  lemma HoleFilledInPlace(ps: seq<Point>, k: nat, fill: GapFiller)
    requires 1 <= k < |ps|
    ensures OriginalIndex(ps, k - 1, fill) < OriginalIndex(ps, k, fill) < |Filled(ps, fill)|
    ensures Filled(ps, fill)[OriginalIndex(ps, k - 1, fill) + 1..OriginalIndex(ps, k, fill)] ==
      fill(ps[k - 1].x, ps[k].x)
  {
    ProcessedPrefix(ps, k + 1, |ps|, fill);
    InnerOfPrefix(Filled(ps, fill), Processed(ps, k, fill), fill(ps[k - 1].x, ps[k].x), ps[k]);
  }

  /** When `before + mid + [last]` starts `whole`, `mid` sits right after
      `before` in it. */
  lemma InnerOfPrefix<T>(whole: seq<T>, before: seq<T>, mid: seq<T>, last: T)
    requires before + mid + [last] <= whole
    ensures |before| + |mid| < |whole| && whole[|before|..|before| + |mid|] == mid
  {
    var upto := before + mid + [last];
    assert whole[..|upto|] == upto;
    assert upto[|before|..|before| + |mid|] == mid;
  }

  /** The layout of the filled list: every original point is kept, in order;
      the first stays first and the last stays last; between two consecutive
      originals lie exactly the virtual points of the hole they bound. */
  lemma FilledLayout(ps: seq<Point>, fill: GapFiller)
    ensures |ps| == 0 ==> Filled(ps, fill) == []
    ensures |ps| > 0 ==>
      (OriginalIndex(ps, 0, fill) == 0 && OriginalIndex(ps, |ps| - 1, fill) == |Filled(ps, fill)| - 1)
    ensures forall k :: 0 <= k < |ps| ==>
      OriginalIndex(ps, k, fill) < |Filled(ps, fill)| && Filled(ps, fill)[OriginalIndex(ps, k, fill)] == ps[k]
    ensures forall k :: 1 <= k < |ps| ==>
      OriginalIndex(ps, k - 1, fill) < OriginalIndex(ps, k, fill) &&
      Filled(ps, fill)[OriginalIndex(ps, k - 1, fill) + 1..OriginalIndex(ps, k, fill)] ==
        fill(ps[k - 1].x, ps[k].x)
  {
    forall k | 0 <= k < |ps|
      ensures OriginalIndex(ps, k, fill) < |Filled(ps, fill)| && Filled(ps, fill)[OriginalIndex(ps, k, fill)] == ps[k]
    {
      OriginalKept(ps, k, fill);
    }
    forall k | 1 <= k < |ps|
      ensures OriginalIndex(ps, k - 1, fill) < OriginalIndex(ps, k, fill) &&
        Filled(ps, fill)[OriginalIndex(ps, k - 1, fill) + 1..OriginalIndex(ps, k, fill)] ==
          fill(ps[k - 1].x, ps[k].x)
    {
      HoleFilledInPlace(ps, k, fill);
    }
  }

  /** Processing changes nothing exactly when no hole receives a point, and
      then the list keeps its length; a longer list means some hole was filled. */
  lemma {:induction false} ProcessedUnchanged(ps: seq<Point>, k: nat, fill: GapFiller)
    requires k <= |ps|
    ensures Processed(ps, k, fill) == ps[..k] <==> |Processed(ps, k, fill)| == k
    ensures Processed(ps, k, fill) == ps[..k] <==>
      forall j :: 1 <= j < k ==> fill(ps[j - 1].x, ps[j].x) == []
    decreases k
  {
    if k > 1 {
      ProcessedUnchanged(ps, k - 1, fill);
      var gap := fill(ps[k - 2].x, ps[k - 1].x);
      assert ps[..k] == ps[..k - 1] + [ps[k - 1]];
      if |Processed(ps, k, fill)| == k {
        assert |gap| == 0;
      }
    }
  }

  /** `fillHoles` changes nothing exactly when no hole receives a point, and
      then the list keeps its length. */
  lemma FilledUnchanged(ps: seq<Point>, fill: GapFiller)
    ensures Filled(ps, fill) == ps <==> |Filled(ps, fill)| == |ps|
    ensures Filled(ps, fill) == ps <==>
      forall k :: 1 <= k < |ps| ==> fill(ps[k - 1].x, ps[k].x) == []
  {
    ProcessedUnchanged(ps, |ps|, fill);
    assert ps[..|ps|] == ps;
  }

  /** Holes no longer than the maximum are left as they are. */
  lemma ShortHolesUntouched(ps: seq<Point>, ctx: Context)
    requires ValidContext(ctx)
    requires forall k :: 1 <= k < |ps| ==> ps[k].x - ps[k - 1].x <= ctx.maxHoleLength as real
    ensures Filled(ps, FillRule(ctx)) == ps
  {
    forall k | 1 <= k < |ps|
      ensures FillRule(ctx)(ps[k - 1].x, ps[k].x) == []
    {
    }
    FilledUnchanged(ps, FillRule(ctx));
  }

  lemma MulMonotonic(u: real, v: real, c: real)
    requires u <= v && 0.0 <= c
    ensures u * c <= v * c
  {
    assert v * c - u * c == (v - u) * c;
  }

  lemma MulNonNegative(u: real, v: real)
    requires 0.0 <= u && 0.0 <= v
    ensures 0.0 <= u * v
  {
    MulMonotonic(0.0, u, v);
  }

  /** A rounding to a nearest integer that keeps the order of its arguments,
      as `Math.rint` does. */
  ghost predicate NearestRounding(rint: real -> int)
  {
    (forall r :: r - 0.5 <= rint(r) as real <= r + 0.5) &&
    (forall r, s :: r <= s ==> rint(r) <= rint(s))
  }

  lemma RintIsNearestRounding()
    ensures NearestRounding(Rint)
  {
    forall r, s | r <= s
      ensures Rint(r) <= Rint(s)
    {
      RintMonotonic(r, s);
    }
  }

  /** The `i`-th of `n` evenly spaced points lies within the hole. */
  lemma SpacedInside(a: real, b: real, n: nat, i: nat)
    requires a <= b && 1 <= i <= n
    ensures 0.0 <= Spacing(b - a, n)
    ensures a <= a + i as real * Spacing(b - a, n) <= b
  {
    var dx := Spacing(b - a, n);
    var m := (n + 1) as real;
    assert 0.0 <= dx by {
      assert dx == (b - a) / m && 0.0 < m && 0.0 <= b - a;
    }
    assert dx * m == b - a;
    MulMonotonic(0.0, i as real, dx);
    MulMonotonic(i as real, m, dx);
  }

  /** The abscissae of a hole's virtual points are in order and lie in the
      hole, up to the rounding. */
  lemma GapAbscissae(rint: real -> int, a: real, b: real, n: nat, i: nat, j: nat)
    requires NearestRounding(rint) && a <= b && 1 <= i <= j <= n
    ensures Abscissa(rint, a, Spacing(b - a, n), i) <= Abscissa(rint, a, Spacing(b - a, n), j)
    ensures a - 0.5 <= Abscissa(rint, a, Spacing(b - a, n), i) as real <= b + 0.5
  {
    SpacedInside(a, b, n, i);
    RoundedSpacedOrdered(rint, a, b, Spacing(b - a, n), i, j);
  }

  /** Rounded points `dx` apart keep their order, and one lying in the hole
      stays in it up to one half. */
  lemma RoundedSpacedOrdered(rint: real -> int, a: real, b: real, dx: real, i: nat, j: nat)
    requires NearestRounding(rint) && 0.0 <= dx && i <= j && a <= a + i as real * dx <= b
    ensures Abscissa(rint, a, dx, i) <= Abscissa(rint, a, dx, j)
    ensures a - 0.5 <= Abscissa(rint, a, dx, i) as real <= b + 0.5
  {
    var xi, xj := a + i as real * dx, a + j as real * dx;
    MulMonotonic(i as real, j as real, dx);
    RoundedOrdered(rint, xi, xj);
  }

  /** A nearest rounding keeps the order of two abscissae and moves each by
      at most one half. */
  lemma RoundedOrdered(rint: real -> int, x: real, y: real)
    requires NearestRounding(rint) && x <= y
    ensures rint(x) <= rint(y) && x - 0.5 <= rint(x) as real <= x + 0.5
  {
  }

  /** Interpolating at one of the two ranks gives that reference point. */
  lemma InterpolateAtReferences(one: Neighbor, two: Neighbor)
    requires one.pos != two.pos
    ensures Interpolate(one.pos, one, two) == one.point
    ensures Interpolate(two.pos, one, two) == two.point
  {
    var d := (two.pos - one.pos) as real;
    assert d / d == 1.0;
  }

  /** A convex combination of two reals lies between them. */
  lemma ConvexBetween(ratio: real, u: real, v: real)
    requires 0.0 <= ratio <= 1.0
    ensures var w := (1.0 - ratio) * u + ratio * v;
      (u <= w <= v) || (v <= w <= u)
  {
    var w := (1.0 - ratio) * u + ratio * v;
    var d := v - u;
    var p, q := ratio * d, (1.0 - ratio) * d;
    assert w == u + p && w == v - q;
    if u <= v {
      MulNonNegative(ratio, d);
      MulNonNegative(1.0 - ratio, d);
    } else {
      MulNonNegative(ratio, -d);
      MulNonNegative(1.0 - ratio, -d);
      assert ratio * -d == -p && (1.0 - ratio) * -d == -q;
    }
  }

  /** The ratio of `fillHoles` when `pos` lies strictly between the ranks. */
  lemma RatioInside(pos: int, p: int, q: int)
    requires p < pos < q || q < pos < p
    ensures 0.0 < (pos - p) as real / (q - p) as real < 1.0
  {
    var num, den := (pos - p) as real, (q - p) as real;
    if den > 0.0 {
      QuotientInside(num, den);
    } else {
      QuotientInside(-num, -den);
      assert num / den == -num / -den;
    }
  }

  /** A quotient of a positive number by a larger one lies strictly inside
      (0, 1). */
  lemma QuotientInside(num: real, den: real)
    requires 0.0 < num < den
    ensures 0.0 < num / den < 1.0
  {
    var ratio := num / den;
    assert ratio * den == num;
    if ratio <= 0.0 { MulMonotonic(ratio, 0.0, den); }
    if ratio >= 1.0 { MulMonotonic(1.0, ratio, den); }
  }

  /** With `pos` strictly between the two ranks, the interpolated point lies
      between the two references, coordinate by coordinate. */
  lemma InterpolateBetween(pos: int, one: Neighbor, two: Neighbor)
    requires one.pos < pos < two.pos || two.pos < pos < one.pos
    ensures var p := Interpolate(pos, one, two);
      ((one.point.x <= p.x <= two.point.x) || (two.point.x <= p.x <= one.point.x)) &&
      ((one.point.y <= p.y <= two.point.y) || (two.point.y <= p.y <= one.point.y))
  {
    RatioInside(pos, one.pos, two.pos);
    var ratio := (pos - one.pos) as real / (two.pos - one.pos) as real;
    ConvexBetween(ratio, one.point.x, two.point.x);
    ConvexBetween(ratio, one.point.y, two.point.y);
  }

  /** A filament at rank 2 between references at ranks 1 and 3 with ordinates
      100 and 140 receives the ordinate 120. */
  lemma InterpolationExample(x: real)
    ensures Interpolate(2, Neighbor(1, Point(x, 100.0)), Neighbor(3, Point(x, 140.0))) == Point(x, 120.0)
  {
  }

  /** A hole of length 50 with virtual segments of 10 and a maximum hole of 20
      receives four points. */
  lemma InsertCountExample(ctx: Context)
    requires ctx.virtualLength == 10 && ctx.maxHoleLength == 20 && ctx.rint == Rint
    ensures InsertCount(50.0, ctx) == 4
  {
    RintOfInteger(5);
    assert 50.0 / 10 as real == 5 as real;
  }

  /** Those four points are 10 apart. */
  lemma AbscissaExample(i: int)
    ensures Abscissa(Rint, 0.0, Spacing(50.0, 4), i) == 10 * i
  {
    RintOfInteger(10 * i);
    assert Spacing(50.0, 4) == 10.0;
    assert 0.0 + i as real * 10.0 == (10 * i) as real;
  }

  /** Without a reference below the filament, no interpolation happens: the
      virtual point lies on the filament's curve. */
  lemma NoReferenceBelowFallsBack(x: int, ctx: Context)
    requires ValidContext(ctx)
    requires forall k :: ctx.pos < k < |ctx.fils| ==> !Hit(ctx.fils[k], x, ctx.virtualLength / 2)
    ensures VirtualPointAt(x, ctx) == Point(x as real, ctx.line(x as real))
  {
    FindInsertionFound(x, ctx.pos, ctx.fils, ctx.virtualLength / 2);
  }

  /** Without a reference above the filament, the virtual point lies on the
      filament's curve too. */
  lemma NoReferenceAboveFallsBack(x: int, ctx: Context)
    requires ValidContext(ctx)
    requires forall k :: 0 <= k < ctx.pos ==> !Hit(ctx.fils[k], x, ctx.virtualLength / 2)
    ensures VirtualPointAt(x, ctx) == Point(x as real, ctx.line(x as real))
  {
    FindInsertionFound(x, ctx.pos, ctx.fils, ctx.virtualLength / 2);
  }

  /** The `i`-th point of that hole when no filament below offers a reference. */
  lemma RefusalPoint(ctx: Context, i: nat)
    requires ValidContext(ctx) && ctx.virtualLength == 10 && ctx.maxHoleLength == 20 && ctx.rint == Rint
    requires forall k, x :: ctx.pos < k < |ctx.fils| ==> !Hit(ctx.fils[k], x, 5)
    requires 1 <= i <= 4
    ensures |GapFill(0.0, 50.0, ctx)| == 4
    ensures GapFill(0.0, 50.0, ctx)[i - 1] == Point((10 * i) as real, ctx.line((10 * i) as real))
  {
    InsertCountExample(ctx);
    AbscissaExample(i);
    NoReferenceBelowFallsBack(10 * i, ctx);
  }

  /** With no reference below the filament, each of the four points lies on
      the filament's own curve. */
  lemma RefusalExample(ctx: Context)
    requires ValidContext(ctx) && ctx.virtualLength == 10 && ctx.maxHoleLength == 20 && ctx.rint == Rint
    requires forall k, x :: ctx.pos < k < |ctx.fils| ==> !Hit(ctx.fils[k], x, 5)
    ensures GapFill(0.0, 50.0, ctx) ==
      [Point(10.0, ctx.line(10.0)), Point(20.0, ctx.line(20.0)),
       Point(30.0, ctx.line(30.0)), Point(40.0, ctx.line(40.0))]
  {
    RefusalPoint(ctx, 1);
    RefusalPoint(ctx, 2);
    RefusalPoint(ctx, 3);
    RefusalPoint(ctx, 4);
    FourElements(GapFill(0.0, 50.0, ctx));
  }

  lemma FourElements<T>(s: seq<T>)
    requires |s| == 4
    ensures s == [s[0], s[1], s[2], s[3]]
  {
  }

  /** The number of points and their spacing as `fillHoles` computes them
      for a hole longer than the maximum. */
  lemma GapShape(holeStart: real, holeStop: real, ctx: Context, insert: int, dx: real)
    requires ValidContext(ctx) && holeStop - holeStart > ctx.maxHoleLength as real
    requires insert == SegmentCount(holeStop - holeStart, ctx) - 1
    requires insert > 0 ==> dx == (holeStop - holeStart) / (insert + 1) as real
    ensures |GapFill(holeStart, holeStop, ctx)| == if insert > 0 then insert else 0
    ensures insert > 0 ==> dx == Spacing(holeStop - holeStart, insert)
  {
  }

  /** The `i`-th virtual point of a hole, at the abscissa `fillHoles` computes. */
  lemma GapPoint(holeStart: real, holeStop: real, ctx: Context, dx: real, i: int, x: int)
    requires ValidContext(ctx) && 1 <= i <= |GapFill(holeStart, holeStop, ctx)|
    requires dx == Spacing(holeStop - holeStart, |GapFill(holeStart, holeStop, ctx)|)
    requires x == Abscissa(ctx.rint, holeStart, dx, i)
    ensures GapFill(holeStart, holeStop, ctx)[i - 1] == VirtualPointAt(x, ctx)
  {
    var n := |GapFill(holeStart, holeStop, ctx)|;
    assert n == InsertCount(holeStop - holeStart, ctx);
    assert GapFill(holeStart, holeStop, ctx)[i - 1] ==
      VirtualPointAt(Abscissa(ctx.rint, holeStart, Spacing(holeStop - holeStart, n), i), ctx);
  }

  /** Inserting the `i`-th element of `gap` after the first `i - 1` ones,
      between `before` and `after`. */
  lemma SpliceOne<T>(before: seq<T>, gap: seq<T>, after: seq<T>, pts: seq<T>, i: nat, e: T)
    requires 1 <= i <= |gap| && gap[i - 1] == e && pts == before + gap[..i - 1] + after
    ensures pts[..|before| + i - 1] + [e] + pts[|before| + i - 1..] == before + gap[..i] + after
  {
    assert pts[..|before| + i - 1] == before + gap[..i - 1];
    assert pts[|before| + i - 1..] == after;
    assert gap[..i] == gap[..i - 1] + [e];
  }

  /** What the scan of `fillHoles` has done once it has passed `k` original
      points: the list `pts` holds those points with the holes between them
      filled, followed by the points still to scan; `ip` indexes the next one,
      `holeStart` is the abscissa of the last point passed, and `modified`
      tells whether a point was inserted. */
  ghost predicate Scanned(pts: seq<Point>, orig: seq<Point>, k: nat, fill: GapFiller, ip: nat,
                          holeStart: Option<real>, modified: bool)
  {
    k <= |orig| && pts == Processed(orig, k, fill) + orig[k..] &&
    ip == |Processed(orig, k, fill)| && (ip < |pts| <==> k < |orig|) &&
    holeStart == (if k == 0 then None else Some(orig[k - 1].x)) &&
    (modified <==> |Processed(orig, k, fill)| > k)
  }

  /** Once all original points are passed the list is the filled one. */
  lemma ScanComplete(pts: seq<Point>, orig: seq<Point>, k: nat, fill: GapFiller, ip: nat,
                      holeStart: Option<real>, modified: bool)
    requires Scanned(pts, orig, k, fill, ip, holeStart, modified) && k == |orig|
    ensures pts == Filled(orig, fill) && (modified <==> |pts| > |orig|)
  {
    if k == |orig| {
      assert orig[k..] == [];
    }
  }

  /** Before the scan nothing is processed and the list is the original. */
  lemma ScannedInit(orig: seq<Point>, fill: GapFiller)
    ensures Scanned(orig, orig, 0, fill, 0, None, false)
  {
    assert orig[0..] == orig;
  }

  /** A filament's staff-line alignment: its points, ordered by abscissa, and
      the curve fitted over them. */
  class LineFilamentAlignment {
    var points: seq<Point>
    var line: Curve

    constructor (points: seq<Point>, line: Curve)
      ensures this.points == points && this.line == line
    {
      this.points := points;
      this.line := line;
    }

    /** The inner part of `fillHoles` for one hole: when it is long enough,
        the virtual points are spliced in, in order, at index `ip`, just before
        the point that closes the hole; `next` is the new index of that point. */
    method FillHole(ip: nat, holeStart: real, holeStop: real, ctx: Context) returns (next: nat)
      requires ValidContext(ctx) && ctx.line == line && ip <= |points|
      modifies this`points
      ensures points == old(points[..ip]) + FillRule(ctx)(holeStart, holeStop) + old(points[ip..])
      ensures next == ip + |FillRule(ctx)(holeStart, holeStop)|
    {
      next := ip;
      ghost var gap := GapFill(holeStart, holeStop, ctx);
      assert FillRule(ctx)(holeStart, holeStop) == gap;
      var holeLength := holeStop - holeStart;
      if holeLength > ctx.maxHoleLength as real {
        var insert := SegmentCount(holeLength, ctx) - 1;
        if insert > 0 {
          var dx := holeLength / (insert + 1) as real;
          GapShape(holeStart, holeStop, ctx, insert, dx);
          ghost var before, after := points[..ip], points[ip..];
          assert points == before + gap[..0] + after;
          var i := 1;
          while i <= insert
            invariant 1 <= i <= insert + 1 && |gap| == insert
            invariant points == before + gap[..i - 1] + after
            invariant next == ip + i - 1
          {
            var x := Abscissa(ctx.rint, holeStart, dx, i);
            var pt := VirtualPointAt(x, ctx);
            GapPoint(holeStart, holeStop, ctx, dx, i, x);
            SpliceOne(before, gap, after, points, i, pt);
            points := points[..next] + [pt] + points[next..];
            next := next + 1;
            i := i + 1;
          }
          assert gap[..insert] == gap;
        } else {
          GapShape(holeStart, holeStop, ctx, insert, 0.0);
        }
      } else {
        assert |gap| == 0;
      }
    }

    /** `fillHoles(pos, fils)`. `toPixels` converts interline fractions for
        this filament's scale and `fit` is the spline interpolation. */
    method FillHoles(pos: int, fils: seq<LineFilament>, toPixels: real -> int, fit: seq<Point> -> Curve)
      requires 0 <= pos < |fils| && DistinctRanks(fils)
      requires toPixels(VIRTUAL_SEGMENT_LENGTH) > 0
      modifies this
      ensures points == Filled(old(points),
        FillRule(Context(pos, fils, toPixels(MAX_HOLE_LENGTH), toPixels(VIRTUAL_SEGMENT_LENGTH), old(line), Rint)))
      ensures line == if |points| > |old(points)| then fit(points) else old(line)
    {
      var maxHoleLength := toPixels(MAX_HOLE_LENGTH);
      var virtualLength := toPixels(VIRTUAL_SEGMENT_LENGTH);
      var ctx := Context(pos, fils, maxHoleLength, virtualLength, line, Rint);
      FillHolesIn(ctx, fit);
    }

    /** One pass of the loop of `fillHoles` on the point at index `ip`: the
        first point opens a hole; any other closes the current hole, which is
        filled, and opens the next one. */
    method ScanPoint(ghost orig: seq<Point>, ghost k: nat, ctx: Context, ghost fill: GapFiller,
                     ip: nat, holeStart: Option<real>, modified: bool)
      returns (ip': nat, holeStart': Option<real>, modified': bool, ghost k': nat)
      requires ValidContext(ctx) && ctx.line == line && fill == FillRule(ctx) && k < |orig|
      requires Scanned(points, orig, k, fill, ip, holeStart, modified)
      modifies this`points
      ensures k' == k + 1 && Scanned(points, orig, k', fill, ip', holeStart', modified')
    {
      assert points[ip] == orig[k];
      var point := points[ip];
      ip', modified', k' := ip, modified, k + 1;
      if holeStart == None {
        holeStart' := Some(point.x);
        ProcessedStart(orig, fill);
      } else {
        var holeStop := point.x;
        ghost var before := points;
        var next := FillHole(ip, holeStart.value, holeStop, ctx);
        ProcessedAdvance(orig, k, fill, before, ip, points);
        modified' := modified || next > ip;
        ip' := next;
        holeStart' := Some(holeStop);
      }
      ip' := ip' + 1;
    }

    /** The loop of `fillHoles`: each pair of consecutive original points
        delimits a hole, filled in place; `modified` tells whether a point was
        inserted. */
    method ScanHoles(ctx: Context) returns (modified: bool)
      requires ValidContext(ctx) && ctx.line == line
      modifies this`points
      ensures points == Filled(old(points), FillRule(ctx))
      ensures modified <==> |points| > |old(points)|
    {
      ghost var orig := points;
      ghost var fill := FillRule(ctx);
      ghost var k: nat := 0;
      var holeStart: Option<real> := None;
      modified := false;
      var ip: nat := 0;
      ScannedInit(orig, fill);
      while ip < |points|
        invariant Scanned(points, orig, k, fill, ip, holeStart, modified)
        decreases |orig| - k
      {
        ip, holeStart, modified, k := ScanPoint(orig, k, ctx, fill, ip, holeStart, modified);
      }
      ScanComplete(points, orig, k, fill, ip, holeStart, modified);
    }

    /** The scan of `fillHoles` once its context is set: the holes are filled,
        then the curve is fitted again when at least one point was inserted. */
    method FillHolesIn(ctx: Context, fit: seq<Point> -> Curve)
      requires ValidContext(ctx) && ctx.line == line
      modifies this
      ensures points == Filled(old(points), FillRule(ctx))
      ensures line == if |points| > |old(points)| then fit(points) else old(line)
    {
      var modified := ScanHoles(ctx);
      if modified {
        line := fit(points);
      }
    }
  }
}
