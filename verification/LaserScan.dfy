/** The laser scan: normalised angles, compensation into 360 bins, and the published range limits. */
module LaserScan {
  import opened CellAreas

  /** The unit of angle is the degree, so that half a turn is a number; the source computes in radians. */
  const PI: real := 180.0
  const TWO_PI: real := 360.0
  const ANGLE_COUNT := 360
  const INCREMENT: real := TWO_PI / ANGLE_COUNT as real

  /** A distance as a float holds it, without NaN. */
  datatype Dist = Fin(value: real) | Inf

  predicate Less(a: Dist, b: Dist) {
    a.Fin? && (b.Inf? || a.value < b.value)
  }

  datatype Point = Point(distance: Dist, angle: real, valid: bool, quality: nat)

  // ----- Angles -----

  function Trunc(v: real): int {
    if 0.0 <= v then v.Floor else -(-v).Floor
  }

  function Fmod(a: real, m: real): real
    requires 0.0 < m
  {
    a - m * Trunc(a / m) as real
  }

  function Normalised(angle: real): real {
    var f := Fmod(angle + PI, TWO_PI);
    var shifted := (if f < 0.0 then f + TWO_PI else f) - PI;
    if shifted < -PI then -PI else if PI <= shifted then -PI else shifted
  }

  /** The angle turned by whole turns. */
  function Turned(angle: real, turns: int): real {
    angle + TWO_PI * turns as real
  }

  ghost predicate Congruent(a: real, b: real) {
    exists turns: int :: a == Turned(b, turns)
  }

  /** The normalised angle is the one of [-pi, pi) that differs by whole turns. */
  lemma NormalisedIsCanonical(angle: real)
    ensures -PI <= Normalised(angle) < PI
    ensures Congruent(Normalised(angle), angle)
    ensures forall other :: -PI <= other < PI && Congruent(other, angle) ==> other == Normalised(angle)
  {
    var q := (angle + PI) / TWO_PI;
    var t := Trunc(q);
    var f := Fmod(angle + PI, TWO_PI);
    assert f == angle + PI - TWO_PI * t as real;
    assert -TWO_PI < f < TWO_PI;
    if f < 0.0 {
      assert Normalised(angle) == Turned(angle, 1 - t);
    } else {
      assert Normalised(angle) == Turned(angle, -t);
    }
    var own: int :| Normalised(angle) == Turned(angle, own);
    forall other | -PI <= other < PI && Congruent(other, angle)
      ensures other == Normalised(angle)
    {
      var turns: int :| other == Turned(angle, turns);
      assert -1 < turns - own < 1;
    }
  }

  /** d is the least distance between the two angles over all whole turns. */
  ghost predicate IsCircularDistance(d: real, a: real, b: real) {
    && (exists turns: int :: d == Abs(a - Turned(b, turns)))
    && forall turns: int :: d <= Abs(a - Turned(b, turns))
  }

  /** The folded difference the closeness test compares. */
  function AngleDiff(a: real, b: real): real {
    var diff := Abs(a - b);
    if TWO_PI <= diff then 0.0 else if PI < diff then TWO_PI - diff else diff
  }

  /** On normalised angles the folded difference is the circular distance. */
  lemma AngleDiffIsCircular(a: real, b: real)
    requires -PI <= a < PI && -PI <= b < PI
    ensures IsCircularDistance(AngleDiff(a, b), a, b)
  {
    var d := AngleDiff(a, b);
    var turns := if a - b > PI then 1 else if b - a > PI then -1 else 0;
    assert d == Abs(a - Turned(b, turns));
    forall t: int
      ensures d <= Abs(a - Turned(b, t))
    {
      if 2 <= t {
        assert 720.0 <= TWO_PI * t as real;
      } else if t <= -2 {
        assert TWO_PI * t as real <= -720.0;
      }
    }
  }

  function DestIndex(srcAngle: real, isClockwise: bool): int {
    var diff := if isClockwise then PI - srcAngle else srcAngle + PI;
    var atLeast := if diff < 0.0 then 0.0 else diff;
    var clamped := if TWO_PI < atLeast then TWO_PI else atLeast;
    var idx := Round(clamped / INCREMENT);
    if ANGLE_COUNT <= idx then 0 else idx
  }

  function AngleMin(isClockwise: bool): real {
    if isClockwise then PI else -PI
  }

  function AngleIncrement(isClockwise: bool): real {
    if isClockwise then -INCREMENT else INCREMENT
  }

  /** The published angle of a bin, and the same normalised. */
  function PublishedAngle(idx: int, isClockwise: bool): real {
    AngleMin(isClockwise) + AngleIncrement(isClockwise) * idx as real
  }

  function DestAngle(idx: int, isClockwise: bool): real {
    Normalised(PublishedAngle(idx, isClockwise))
  }

  lemma TurnsAdd(angle: real, published: real, own: int, near: int, turns: int)
    ensures Turned(published, turns) - Turned(angle, own + near + turns) == published - Turned(Turned(angle, own), near)
  {
  }

  lemma PublishedIs(idx: int, isClockwise: bool)
    ensures PublishedAngle(idx, isClockwise) == if isClockwise then PI - idx as real else -PI + idx as real
  {
  }

  lemma TurnedIs(angle: real, turns: int)
    requires -1 <= turns <= 1
    ensures Turned(angle, turns) == if turns == 0 then angle else if turns == 1 then angle + TWO_PI else angle - TWO_PI
  {
  }

  lemma RoundError(v: real)
    requires 0.0 <= v
    ensures v - 0.5 <= Round(v) as real <= v + 0.5
    ensures 359.5 <= v <= 360.0 <==> Round(v) == 360 && v <= 360.0
  {
  }

  /** Before normalisation the chosen bin is within half an increment of the angle, up to one turn at the wrap. */
  lemma IndexError(src: real, isClockwise: bool) returns (near: int)
    requires -PI <= src < PI
    ensures var idx := DestIndex(src, isClockwise);
            0 <= idx < ANGLE_COUNT && Abs(PublishedAngle(idx, isClockwise) - Turned(src, near)) <= INCREMENT / 2.0
  {
    var diff := if isClockwise then PI - src else src + PI;
    RoundError(diff);
    near := if diff < 359.5 then 0 else if isClockwise then 1 else -1;
    var idx := DestIndex(src, isClockwise);
    assert idx == if diff < 359.5 then Round(diff) else 0;
    PublishedIs(idx, isClockwise);
    TurnedIs(src, near);
  }

  /** What is published with the bins: the first and the last angle, and the step from bin to bin. */
  datatype AngleInfo = AngleInfo(min: real, max: real, increment: real)

  /**
    Counter-clockwise the bins run from -pi upwards, clockwise from pi downwards, and in both cases by one increment
    per bin up to the published last angle; the two are mirror images.
   */
  lemma PublishedAngles(idx: int)
    requires 0 <= idx < 360
    ensures PublishedAngle(0, false) == -180.0 && PublishedAngle(359, false) == 179.0
    ensures PublishedAngle(idx, true) == -PublishedAngle(idx, false)
    ensures PublishedAngle(idx + 1, false) == PublishedAngle(idx, false) + 1.0
  {
    PublishedIs(0, false);
    PublishedIs(359, false);
    PublishedIs(idx, false);
    PublishedIs(idx, true);
    PublishedIs(idx + 1, false);
  }

  /** Every angle goes to a bin whose published angle is at most half an increment away, also at the wrap. */
  lemma BinErrorIsHalfIncrement(angle: real, isClockwise: bool)
    ensures var idx := DestIndex(Normalised(angle), isClockwise);
            && 0 <= idx < ANGLE_COUNT
            && forall d :: IsCircularDistance(d, DestAngle(idx, isClockwise), angle) ==> d <= INCREMENT / 2.0
  {
    NormalisedIsCanonical(angle);
    var src := Normalised(angle);
    var idx := DestIndex(src, isClockwise);
    var published := PublishedAngle(idx, isClockwise);
    var near := IndexError(src, isClockwise);
    NormalisedIsCanonical(published);
    var own: int :| src == Turned(angle, own);
    var turns: int :| DestAngle(idx, isClockwise) == Turned(published, turns);
    TurnsAdd(angle, published, own, near, turns);
  }

  // ----- Which point wins a bin -----

  function Offset(p: Point, isClockwise: bool, bin: int): real {
    AngleDiff(DestAngle(bin, isClockwise), Normalised(p.angle))
  }

  /** What the bins compare is the circular distance between the bin's angle and the point's own angle. */
  lemma OffsetIsCircular(p: Point, isClockwise: bool, bin: int)
    ensures IsCircularDistance(Offset(p, isClockwise, bin), DestAngle(bin, isClockwise), p.angle)
  {
    var src, dest := Normalised(p.angle), DestAngle(bin, isClockwise);
    NormalisedIsCanonical(p.angle);
    NormalisedIsCanonical(PublishedAngle(bin, isClockwise));
    AngleDiffIsCircular(dest, src);
    var own: int :| src == Turned(p.angle, own);
    var d := AngleDiff(dest, src);
    var least: int :| d == Abs(dest - Turned(src, least));
    assert Turned(src, least) == Turned(p.angle, own + least);
    forall turns: int
      ensures d <= Abs(dest - Turned(p.angle, turns))
    {
      assert Turned(p.angle, turns) == Turned(src, turns - own);
    }
  }

  datatype Winner = NoPoint | PointAt(index: nat)

  predicate MapsTo(p: Point, isClockwise: bool, bin: int) {
    p.valid && DestIndex(Normalised(p.angle), isClockwise) == bin
  }

  /** The index of the point whose values the bin holds after the points in the given order. */
  function WinnerOf(order: seq<Point>, isClockwise: bool, bin: int): (w: Winner)
    ensures w.PointAt? ==> w.index < |order| && MapsTo(order[w.index], isClockwise, bin)
  {
    if order == [] then
      NoPoint
    else
      var before, p := WinnerOf(order[..|order| - 1], isClockwise, bin), order[|order| - 1];
      if !MapsTo(p, isClockwise, bin) then
        before
      else if before == NoPoint || order[before.index].distance == Inf
              || Offset(p, isClockwise, bin) < Offset(order[before.index], isClockwise, bin) then
        PointAt(|order| - 1)
      else
        before
  }

  function RangeOf(order: seq<Point>, isClockwise: bool, bin: int): Dist {
    var w := WinnerOf(order, isClockwise, bin);
    if w == NoPoint then Inf else order[w.index].distance
  }

  function IntensityOf(order: seq<Point>, isClockwise: bool, bin: int): nat {
    var w := WinnerOf(order, isClockwise, bin);
    if w == NoPoint then 0 else order[w.index].quality
  }

  /** The angle remembered for the bin; 0 until a point is written. */
  function SourceAngleOf(order: seq<Point>, isClockwise: bool, bin: int): real {
    var w := WinnerOf(order, isClockwise, bin);
    if w == NoPoint then 0.0 else Normalised(order[w.index].angle)
  }

  /** Point i of the bin is finite, and no later point of the bin is nearer. */
  ghost predicate Stands(order: seq<Point>, isClockwise: bool, bin: int, i: nat) {
    && i < |order| && MapsTo(order[i], isClockwise, bin) && order[i].distance.Fin?
    && forall j :: i < j < |order| && MapsTo(order[j], isClockwise, bin) ==>
         Offset(order[i], isClockwise, bin) <= Offset(order[j], isClockwise, bin)
  }

  /** No point after position i maps to the bin. */
  ghost predicate NoneAfter(order: seq<Point>, isClockwise: bool, bin: int, i: int) {
    forall j :: i < j < |order| ==> 0 <= j && !MapsTo(order[j], isClockwise, bin)
  }

  /** Point m is the first of the points of the bin closest to its angle. */
  ghost predicate IsFirstNearest(order: seq<Point>, isClockwise: bool, bin: int, m: nat) {
    && m < |order| && MapsTo(order[m], isClockwise, bin)
    && forall i :: 0 <= i < |order| && MapsTo(order[i], isClockwise, bin) ==>
         && Offset(order[m], isClockwise, bin) <= Offset(order[i], isClockwise, bin)
         && (i < m ==> Offset(order[m], isClockwise, bin) < Offset(order[i], isClockwise, bin))
  }

  /** What holds of the winner after any points: a finite one stands, and an infinite one is the last of its bin. */
  lemma {:induction false} WinnerStands(order: seq<Point>, isClockwise: bool, bin: int)
    ensures var w := WinnerOf(order, isClockwise, bin);
            && (w.PointAt? && order[w.index].distance.Fin? ==> Stands(order, isClockwise, bin, w.index))
            && (w.PointAt? && order[w.index].distance.Inf? ==> NoneAfter(order, isClockwise, bin, w.index))
            && (w.NoPoint? <==> NoneAfter(order, isClockwise, bin, -1))
  {
    hide DestIndex, Offset, Normalised;
    if order != [] {
      var init := order[..|order| - 1];
      WinnerStands(init, isClockwise, bin);
      assert forall i :: 0 <= i < |init| ==> init[i] == order[i];
    }
  }

  /** A point that stands is beaten only by a finite one that is nearer, or as near and earlier. */
  lemma {:induction false} StandingIsBeaten(order: seq<Point>, isClockwise: bool, bin: int, i: nat)
    requires Stands(order, isClockwise, bin, i)
    ensures var w := WinnerOf(order, isClockwise, bin);
            && w.PointAt? && order[w.index].distance.Fin?
            && Offset(order[w.index], isClockwise, bin) <= Offset(order[i], isClockwise, bin)
            && (Offset(order[w.index], isClockwise, bin) == Offset(order[i], isClockwise, bin) ==> w.index <= i)
  {
    hide DestIndex, Offset, Normalised;
    var init := order[..|order| - 1];
    assert forall j :: 0 <= j < |init| ==> init[j] == order[j];
    if i < |init| {
      StandingIsBeaten(init, isClockwise, bin, i);
    }
  }

  /** For any points: the bin ends finite exactly when some finite point of it has no nearer one after it. */
  lemma BinEndsFinite(order: seq<Point>, isClockwise: bool, bin: int)
    ensures RangeOf(order, isClockwise, bin).Fin? <==> exists i: nat :: Stands(order, isClockwise, bin, i)
  {
    WinnerStands(order, isClockwise, bin);
    if i: nat :| Stands(order, isClockwise, bin, i) {
      StandingIsBeaten(order, isClockwise, bin, i);
    }
  }

  /**
    For any points, infinite distances included: the bin holds the first of its points at minimal circular
    distance exactly when that point is finite or no other point of the bin comes after it.
   */
  lemma {:induction false} NearestWinsExactly(order: seq<Point>, isClockwise: bool, bin: int, m: nat)
    requires IsFirstNearest(order, isClockwise, bin, m)
    ensures WinnerOf(order, isClockwise, bin) == PointAt(m)
            <==> order[m].distance.Fin? || NoneAfter(order, isClockwise, bin, m)
    ensures order[m].distance.Fin? || NoneAfter(order, isClockwise, bin, m) ==>
              && RangeOf(order, isClockwise, bin) == order[m].distance
              && IntensityOf(order, isClockwise, bin) == order[m].quality
  {
    WinnerStands(order, isClockwise, bin);
    if order[m].distance.Fin? {
      assert Stands(order, isClockwise, bin, m);
      StandingIsBeaten(order, isClockwise, bin, m);
    }
  }

  lemma {:induction false} SomeFirstNearest(order: seq<Point>, isClockwise: bool, bin: int) returns (m: nat)
    requires !NoneAfter(order, isClockwise, bin, -1)
    ensures IsFirstNearest(order, isClockwise, bin, m)
  {
    var init, last := order[..|order| - 1], |order| - 1;
    assert forall i :: 0 <= i < |init| ==> init[i] == order[i];
    if NoneAfter(init, isClockwise, bin, -1) {
      m := last;
    } else {
      m := SomeFirstNearest(init, isClockwise, bin);
      if MapsTo(order[last], isClockwise, bin)
         && Offset(order[last], isClockwise, bin) < Offset(order[m], isClockwise, bin) {
        m := last;
      }
    }
  }

  /** Every point of the bin has a finite distance. */
  ghost predicate FiniteInBin(order: seq<Point>, isClockwise: bool, bin: int) {
    forall p :: p in order && MapsTo(p, isClockwise, bin) ==> p.distance.Fin?
  }

  /** With finite distances the bin holds the first of the points closest to its angle, or infinity if there is none. */
  lemma NearestPointWins(order: seq<Point>, isClockwise: bool, bin: int)
    requires FiniteInBin(order, isClockwise, bin)
    ensures RangeOf(order, isClockwise, bin) == Inf <==> NoneAfter(order, isClockwise, bin, -1)
    ensures var w := WinnerOf(order, isClockwise, bin); w.PointAt? ==> IsFirstNearest(order, isClockwise, bin, w.index)
  {
    WinnerStands(order, isClockwise, bin);
    if !NoneAfter(order, isClockwise, bin, -1) {
      var m := SomeFirstNearest(order, isClockwise, bin);
      assert order[m] in order;
      NearestWinsExactly(order, isClockwise, bin, m);
    }
  }

  /** A witness: the infinite nearest point leaves its bin open, and the one at 0.4 degrees replaces the one at 0.2. */
  lemma InfiniteReadingIsForgotten()
    ensures var order := [Point(Fin(1.0), 0.2, true, 0), Point(Inf, 0.1, true, 0), Point(Fin(2.0), 0.4, true, 0)];
            && (forall i :: 0 <= i < 3 ==> MapsTo(order[i], false, 180))
            && RangeOf(order, false, 180) == Fin(2.0)
            && Offset(order[0], false, 180) < Offset(order[2], false, 180)
  {
    var p, q, r := Point(Fin(1.0), 0.2, true, 0), Point(Inf, 0.1, true, 0), Point(Fin(2.0), 0.4, true, 0);
    var order := [p, q, r];
    assert order[..2] == [p, q] && [p, q][..1] == [p] && [p][..0] == [];
    assert Normalised(0.2) == 0.2 && Normalised(0.1) == 0.1 && Normalised(0.4) == 0.4 && DestAngle(180, false) == 0.0;
    assert WinnerOf([p], false, 180) == PointAt(0);
    assert WinnerOf([p, q], false, 180) == PointAt(1);
  }

  /** A winner among the later points, counted from the start. */
  function Shifted(w: Winner, start: nat): Winner {
    if w == NoPoint then NoPoint else PointAt(w.index + start)
  }

  /** A later start changes nothing about the last point, if it does not about the points before. */
  lemma RestartStep(order: seq<Point>, isClockwise: bool, bin: int, start: nat)
    requires start < |order|
    requires WinnerOf(order[..|order| - 1], isClockwise, bin)
             == Shifted(WinnerOf(order[start..][..|order| - start - 1], isClockwise, bin), start)
    ensures WinnerOf(order, isClockwise, bin) == Shifted(WinnerOf(order[start..], isClockwise, bin), start)
  {
    hide DestIndex, Offset, Normalised;
  }

  /** After an infinite winner, or none, the next point of the bin wins. */
  lemma NextWins(order: seq<Point>, isClockwise: bool, bin: int)
    requires order != [] && MapsTo(order[|order| - 1], isClockwise, bin)
    requires var w := WinnerOf(order[..|order| - 1], isClockwise, bin); w.PointAt? ==> order[w.index].distance.Inf?
    ensures WinnerOf(order, isClockwise, bin) == PointAt(|order| - 1)
  {
    hide DestIndex, Offset, Normalised;
  }

  /** Otherwise, after an infinite nearest point, the bin is as if the scan began right after that point. */
  lemma {:induction false} InfiniteNearestRestarts(order: seq<Point>, isClockwise: bool, bin: int, m: nat)
    requires IsFirstNearest(order, isClockwise, bin, m)
    requires order[m].distance.Inf? && !NoneAfter(order, isClockwise, bin, m)
    ensures WinnerOf(order, isClockwise, bin) == Shifted(WinnerOf(order[m + 1..], isClockwise, bin), m + 1)
  {
    hide DestIndex, Offset, Normalised, WinnerOf, MapsTo;
    var init, rest := order[..|order| - 1], order[m + 1..];
    assert rest[..|rest| - 1] == init[m + 1..];
    assert forall i :: 0 <= i < |init| ==> init[i] == order[i];
    if NoneAfter(init, isClockwise, bin, m) {
      NearestWinsExactly(init, isClockwise, bin, m);
      WinnerStands(init[m + 1..], isClockwise, bin);
      NextWins(order, isClockwise, bin);
      NextWins(rest, isClockwise, bin);
    } else {
      InfiniteNearestRestarts(init, isClockwise, bin, m);
      RestartStep(order, isClockwise, bin, m + 1);
    }
  }

  /** Points of one bin at the same offset carry the same reading. */
  ghost predicate NoTies(order: seq<Point>, isClockwise: bool, bin: int) {
    forall p, q :: p in order && q in order && MapsTo(p, isClockwise, bin) && MapsTo(q, isClockwise, bin)
                   && Offset(p, isClockwise, bin) == Offset(q, isClockwise, bin) ==>
                     p.distance == q.distance && p.quality == q.quality
  }

  /** Without ties the bin does not depend on the order of the points, nor on repetitions. */
  lemma BinIgnoresOrder(order: seq<Point>, other: seq<Point>, isClockwise: bool, bin: int)
    requires FiniteInBin(order, isClockwise, bin) && NoTies(order, isClockwise, bin)
    requires forall p :: p in order <==> p in other
    ensures RangeOf(order, isClockwise, bin) == RangeOf(other, isClockwise, bin)
    ensures IntensityOf(order, isClockwise, bin) == IntensityOf(other, isClockwise, bin)
  {
    NearestPointWins(order, isClockwise, bin);
    NearestPointWins(other, isClockwise, bin);
    var w, v := WinnerOf(order, isClockwise, bin), WinnerOf(other, isClockwise, bin);
    if w.PointAt? {
      assert order[w.index] in other;
    }
    if v.PointAt? {
      assert other[v.index] in order;
    }
  }

  function Reversed<T>(s: seq<T>): seq<T> {
    seq(|s|, i requires 0 <= i < |s| => s[|s| - 1 - i])
  }

  /** In particular a reversed scan gives the same bins. */
  lemma ReversalIsInvisible(points: seq<Point>, isClockwise: bool, bin: int)
    requires FiniteInBin(points, isClockwise, bin) && NoTies(points, isClockwise, bin)
    ensures RangeOf(points, isClockwise, bin) == RangeOf(Reversed(points), isClockwise, bin)
    ensures IntensityOf(points, isClockwise, bin) == IntensityOf(Reversed(points), isClockwise, bin)
  {
    forall p
      ensures p in points <==> p in Reversed(points)
    {
      if p in points {
        var i :| 0 <= i < |points| && points[i] == p;
        assert Reversed(points)[|points| - 1 - i] == p;
      }
    }
    BinIgnoresOrder(points, Reversed(points), isClockwise, bin);
  }

  // ----- The loops -----

  /** The three arrays hold what the points seen so far leave in each bin. */
  ghost predicate Holds(ranges: seq<Dist>, intensities: seq<nat>, srcAngles: seq<real>, seen: seq<Point>, isClockwise: bool) {
    && |ranges| == |intensities| == |srcAngles| == ANGLE_COUNT
    && forall b :: 0 <= b < ANGLE_COUNT ==>
         && ranges[b] == RangeOf(seen, isClockwise, b)
         && intensities[b] == IntensityOf(seen, isClockwise, b)
         && srcAngles[b] == SourceAngleOf(seen, isClockwise, b)
  }

  /** One point: written to its bin if the bin is infinite or the point is closer than the remembered one. */
  method CompensateAndFillRange(p: Point, isClockwise: bool, ranges: array<Dist>, intensities: array<nat>,
                                srcAngles: array<real>, ghost seen: seq<Point>)
    requires Holds(ranges[..], intensities[..], srcAngles[..], seen, isClockwise)
    modifies ranges, intensities, srcAngles
    ensures Holds(ranges[..], intensities[..], srcAngles[..], seen + [p], isClockwise)
  {
    hide Normalised, DestIndex, DestAngle, AngleDiff, IsCircularDistance;
    ghost var all := seen + [p];
    assert all[..|all| - 1] == seen;
    if p.valid {
      var srcAngle := Normalised(p.angle);
      BinErrorIsHalfIncrement(p.angle, isClockwise);
      var destIdx := DestIndex(srcAngle, isClockwise);
      var destAngle := DestAngle(destIdx, isClockwise);
      ghost var before := WinnerOf(seen, isClockwise, destIdx);
      if ranges[destIdx] == Inf || AngleDiff(destAngle, srcAngle) < AngleDiff(destAngle, srcAngles[destIdx]) {
        ranges[destIdx] := p.distance;
        intensities[destIdx] := p.quality;
        srcAngles[destIdx] := srcAngle;
      }
    }
  }

  /** All points, forwards or backwards, into 360 bins. */
  method CompensateAndFillRanges(points: seq<Point>, isClockwise: bool, isLaserDataReverse: bool)
    returns (ranges: array<Dist>, intensities: array<nat>, angles: AngleInfo)
    ensures angles.min == PublishedAngle(0, isClockwise) && angles.max == PublishedAngle(359, isClockwise)
    ensures angles.increment == PublishedAngle(1, isClockwise) - PublishedAngle(0, isClockwise)
    ensures ranges.Length == intensities.Length == ANGLE_COUNT
    ensures var order := if isLaserDataReverse then Reversed(points) else points;
            forall b :: 0 <= b < ANGLE_COUNT ==>
              ranges[b] == RangeOf(order, isClockwise, b) && intensities[b] == IntensityOf(order, isClockwise, b)
  {
    ranges := new Dist[ANGLE_COUNT](_ => Inf);
    intensities := new nat[ANGLE_COUNT](_ => 0);
    angles := if isClockwise then AngleInfo(PI, -PI + INCREMENT, -INCREMENT) else AngleInfo(-PI, PI - INCREMENT, INCREMENT);
    PublishedIs(0, isClockwise);
    PublishedIs(1, isClockwise);
    PublishedIs(359, isClockwise);
    var srcAngles := new real[ANGLE_COUNT](_ => 0.0);
    ghost var seen := [];
    if !isLaserDataReverse {
      var i := 0;
      while i < |points|
        invariant 0 <= i <= |points| && seen == points[..i]
        invariant Holds(ranges[..], intensities[..], srcAngles[..], seen, isClockwise)
      {
        CompensateAndFillRange(points[i], isClockwise, ranges, intensities, srcAngles, seen);
        seen := seen + [points[i]];
        i := i + 1;
      }
      assert seen == points;
    } else {
      var i := |points| - 1;
      while 0 <= i
        invariant -1 <= i < |points| && seen == Reversed(points)[..|points| - 1 - i]
        invariant Holds(ranges[..], intensities[..], srcAngles[..], seen, isClockwise)
      {
        CompensateAndFillRange(points[i], isClockwise, ranges, intensities, srcAngles, seen);
        seen := seen + [points[i]];
        i := i - 1;
      }
      assert seen == Reversed(points);
    }
  }

  // ----- Range limits -----

  /** The distance, with negative ones cut off at 0. */
  function Clamped(d: Dist): Dist {
    if d.Fin? && d.value < 0.0 then Fin(0.0) else d
  }

  ghost predicate IsLimit(limit: Dist, points: seq<Point>) {
    exists i :: 0 <= i < |points| && points[i].valid && limit == Clamped(points[i].distance)
  }

  ghost predicate Bounds(points: seq<Point>, rangeMin: Dist, rangeMax: Dist) {
    forall i :: 0 <= i < |points| && points[i].valid ==>
      !Less(Clamped(points[i].distance), rangeMin) && !Less(rangeMax, Clamped(points[i].distance))
  }

  ghost predicate NoneValid(points: seq<Point>) {
    forall i :: 0 <= i < |points| ==> !points[i].valid
  }

  lemma LimitsOfOneMore(points: seq<Point>, i: nat)
    requires i < |points|
    ensures NoneValid(points[..i + 1]) <==> NoneValid(points[..i]) && !points[i].valid
    ensures forall limit :: IsLimit(limit, points[..i]) ==> IsLimit(limit, points[..i + 1])
    ensures points[i].valid ==> IsLimit(Clamped(points[i].distance), points[..i + 1])
  {
    var longer := points[..i + 1];
    assert longer[..i] == points[..i] && longer[i] == points[i];
    forall limit | IsLimit(limit, points[..i])
      ensures IsLimit(limit, longer)
    {
      var j :| 0 <= j < i && points[..i][j].valid && limit == Clamped(points[..i][j].distance);
      assert longer[j] == points[j];
    }
    if NoneValid(points[..i]) && !points[i].valid {
      forall j | 0 <= j < |longer|
        ensures !longer[j].valid
      {
        assert j < i ==> longer[j] == points[..i][j];
      }
    }
    if NoneValid(longer) {
      forall j | 0 <= j < i
        ensures !points[..i][j].valid
      {
        assert points[..i][j] == longer[j];
      }
    }
  }

  /** The limits are the least and the greatest clamped distance of the valid points; infinity and 0 if there is none. */
  method FillRangeMinMax(points: seq<Point>) returns (rangeMin: Dist, rangeMax: Dist)
    ensures NoneValid(points) ==> rangeMin == Inf && rangeMax == Fin(0.0)
    ensures !NoneValid(points) ==> IsLimit(rangeMin, points) && IsLimit(rangeMax, points)
    ensures Bounds(points, rangeMin, rangeMax)
  {
    rangeMin, rangeMax := Inf, Fin(0.0);
    var i := 0;
    while i < |points|
      invariant 0 <= i <= |points|
      invariant NoneValid(points[..i]) ==> rangeMin == Inf && rangeMax == Fin(0.0)
      invariant !NoneValid(points[..i]) ==> IsLimit(rangeMin, points[..i]) && IsLimit(rangeMax, points[..i])
      invariant rangeMin == Clamped(rangeMin) && rangeMax == Clamped(rangeMax)
      invariant Bounds(points[..i], rangeMin, rangeMax)
    {
      LimitsOfOneMore(points, i);
      if points[i].valid {
        var tmpDist := points[i].distance;
        if Less(tmpDist, rangeMin) {
          rangeMin := Clamped(tmpDist);
        }
        if Less(rangeMax, tmpDist) {
          rangeMax := tmpDist;
        }
      }
      i := i + 1;
    }
    assert points[..|points|] == points;
  }

  /** Whatever finite range the compensation writes lies between the published limits, up to the cut-off at 0. */
  lemma RangesWithinLimits(order: seq<Point>, points: seq<Point>, isClockwise: bool, bin: int, rangeMin: Dist, rangeMax: Dist)
    requires forall p :: p in order <==> p in points
    requires Bounds(points, rangeMin, rangeMax)
    ensures var r := RangeOf(order, isClockwise, bin);
            r.Fin? ==>
              && !Less(Clamped(r), rangeMin) && !Less(rangeMax, Clamped(r))
              && (0.0 <= r.value ==> !Less(r, rangeMin) && !Less(rangeMax, r))
  {
    var w := WinnerOf(order, isClockwise, bin);
    if w.PointAt? {
      assert order[w.index] in points;
    }
  }
}
