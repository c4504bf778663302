/** The `onLayout` pipeline: display area, the children to place on the
    ring, their smallest and largest effective radius, the ring radius, the
    angle increment and the placement of every child on the ring. */
module LayoutPass {
  import opened Wrappers
  import opened Geometry
  import opened CircleLayout

  /** Trigonometry and pi, left uninterpreted: any values may be supplied. */
  datatype Trig = Trig(pi: real, cos: real -> real, sin: real -> real)

  function Abs(x: int): nat { if x < 0 then -x else x }

  /** `polarToX`: the x offset of a polar coordinate, truncated toward zero. */
  function PolarToX(trig: Trig, radius: int, angle: real): int
  {
    TruncToInt(radius as real * trig.cos(angle))
  }

  /** `polarToY`: the y offset of a polar coordinate, truncated toward zero. */
  function PolarToY(trig: Trig, radius: int, angle: real): int
  {
    TruncToInt(radius as real * trig.sin(angle))
  }

  /** Both polar offsets are the exact products `radius * cos(angle)` and
      `radius * sin(angle)` truncated toward zero. */
  lemma PolarTruncates(trig: Trig, radius: int, angle: real)
    ensures var v := radius as real * trig.cos(angle); var r := PolarToX(trig, radius, angle);
      && (v >= 0.0 ==> 0 <= r && r as real <= v < r as real + 1.0)
      && (v < 0.0 ==> r <= 0 && r as real - 1.0 < v <= r as real)
    ensures var v := radius as real * trig.sin(angle); var r := PolarToY(trig, radius, angle);
      && (v >= 0.0 ==> 0 <= r && r as real <= v < r as real + 1.0)
      && (v < 0.0 ==> r <= 0 && r as real - 1.0 < v <= r as real)
  {
  }

  lemma NonNegativeProduct(a: real, b: real)
    requires a >= 0.0 && b >= 0.0
    ensures a * b >= 0.0
  {
  }

  /** |r * c| is at most |r| when |c| is at most 1. */
  lemma ScaledWithinRadius(radius: int, c: real)
    requires -1.0 <= c <= 1.0
    ensures var v := radius as real * c; -(Abs(radius) as real) <= v <= Abs(radius) as real
  {
    var r := radius as real;
    if radius >= 0 {
      NonNegativeProduct(r, 1.0 - c);
      NonNegativeProduct(r, c + 1.0);
    } else {
      NonNegativeProduct(-r, 1.0 - c);
      NonNegativeProduct(-r, c + 1.0);
    }
  }

  /** For cosines and sines in [-1, 1], a polar offset never exceeds the radius. */
  lemma PolarWithinRadius(trig: Trig, radius: int, angle: real)
    requires -1.0 <= trig.cos(angle) <= 1.0 && -1.0 <= trig.sin(angle) <= 1.0
    ensures Abs(PolarToX(trig, radius, angle)) <= Abs(radius)
    ensures Abs(PolarToY(trig, radius, angle)) <= Abs(radius)
  {
    ScaledWithinRadius(radius, trig.cos(angle));
    ScaledWithinRadius(radius, trig.sin(angle));
  }

  /** `layoutHasCenterView`. */
  predicate HasCenterView(cfg: Config)
  {
    cfg.centerViewId != NO_ID
  }

  /** Under a valid configuration the layout has a centre view exactly when
      one is set and it carries a view id; such a centre view is kept off
      the ring, and so is every child sharing its id. */
  lemma HasCenterViewMeans(cfg: Config, children: seq<Child>)
    requires ValidConfig(cfg, children)
    ensures HasCenterView(cfg) <==> cfg.centerView.Some? && children[cfg.centerView.value].viewId != NO_ID
    ensures HasCenterView(cfg) ==>
      forall i :: 0 <= i < |children| && children[i].viewId == children[cfg.centerView.value].viewId ==>
        !LaidOut(children[i], cfg)
  {
  }

  /** A child goes on the ring unless it carries the centre view's id or is gone. */
  predicate LaidOut(ch: Child, cfg: Config)
  {
    !((HasCenterView(cfg) && ch.viewId == cfg.centerViewId) || ch.visibility == Gone)
  }

  predicate Increasing(xs: seq<nat>)
  {
    forall j, k :: 0 <= j < k < |xs| ==> xs[j] < xs[k]
  }

  /** The indices below `n` whose children go on the ring, visited in
      ascending order as `forEachChild` visits them. */
  function FilterLaidOut(children: seq<Child>, cfg: Config, n: nat): (r: seq<nat>)
    requires n <= |children|
    ensures forall k :: 0 <= k < |r| ==> r[k] < n && LaidOut(children[r[k]], cfg)
    ensures forall i: nat :: i < n && LaidOut(children[i], cfg) ==> i in r
    ensures Increasing(r)
  {
    if n == 0 then []
    else
      var front := FilterLaidOut(children, cfg, n - 1);
      if LaidOut(children[n - 1], cfg) then front + [n - 1] else front
  }

  /** The visited indices whose children go on the ring, in visit order. */
  function KeepLaidOut(children: seq<Child>, cfg: Config, visit: seq<nat>): seq<nat>
    requires forall k :: 0 <= k < |visit| ==> visit[k] < |children|
  {
    if |visit| == 0 then []
    else
      var front := KeepLaidOut(children, cfg, visit[..|visit| - 1]);
      var i := visit[|visit| - 1];
      if LaidOut(children[i], cfg) then front + [i] else front
  }

  /** The ring children are those `forEachChild` visits, filtered in its
      visit order. */
  lemma {:induction false} FilterFollowsVisitOrder(children: seq<Child>, cfg: Config, n: nat)
    requires n <= |children|
    ensures FilterLaidOut(children, cfg, n) == KeepLaidOut(children, cfg, ForEachChildOrder(n))
  {
    if n > 0 {
      var visit := ForEachChildOrder(n);
      assert visit[..n - 1] == ForEachChildOrder(n - 1);
      FilterFollowsVisitOrder(children, cfg, n - 1);
    }
  }

  /** The partition of `onLayout`: the children to place on the ring, in
      child order. */
  function ChildrenToLayout(children: seq<Child>, cfg: Config): (r: seq<nat>)
    ensures forall k :: 0 <= k < |r| ==> r[k] < |children| && LaidOut(children[r[k]], cfg)
    ensures forall i: nat :: i < |children| && LaidOut(children[i], cfg) ==> i in r
    ensures Increasing(r)
  {
    FilterLaidOut(children, cfg, |children|)
  }

  /** The smallest effective radius among the ring children, starting from
      the outer radius. */
  function MinChildRadius(children: seq<Child>, toLayout: seq<nat>, outerRadius: int): (r: int)
    requires forall k :: 0 <= k < |toLayout| ==> toLayout[k] < |children|
    ensures r <= outerRadius
    ensures forall k :: 0 <= k < |toLayout| ==> r <= ChildRadius(children[toLayout[k]])
    ensures r == outerRadius || exists k :: 0 <= k < |toLayout| && r == ChildRadius(children[toLayout[k]])
    decreases |toLayout|
  {
    if |toLayout| == 0 then outerRadius
    else
      var front := MinChildRadius(children, toLayout[..|toLayout| - 1], outerRadius);
      assert forall k :: 0 <= k < |toLayout| - 1 ==> toLayout[..|toLayout| - 1][k] == toLayout[k];
      Min(front, ChildRadius(children[toLayout[|toLayout| - 1]]))
  }

  /** The largest effective radius among the ring children, starting from 0. */
  function MaxChildRadius(children: seq<Child>, toLayout: seq<nat>): (r: int)
    requires forall k :: 0 <= k < |toLayout| ==> toLayout[k] < |children|
    ensures r >= 0
    ensures forall k :: 0 <= k < |toLayout| ==> ChildRadius(children[toLayout[k]]) <= r
    ensures r == 0 || exists k :: 0 <= k < |toLayout| && r == ChildRadius(children[toLayout[k]])
    decreases |toLayout|
  {
    if |toLayout| == 0 then 0
    else
      var front := MaxChildRadius(children, toLayout[..|toLayout| - 1]);
      assert forall k :: 0 <= k < |toLayout| - 1 ==> toLayout[..|toLayout| - 1][k] == toLayout[k];
      Max(front, ChildRadius(children[toLayout[|toLayout| - 1]]))
  }

  /** `getEqualAngle`: a full turn split into `numSlices` equal slices; zero
      slices count as one, so there is never a division by zero. */
  function EqualAngle(pi: real, numSlices: nat): (a: real)
    ensures numSlices == 0 ==> a == 2.0 * pi
    ensures numSlices > 0 ==> a * numSlices as real == 2.0 * pi
  {
    2.0 * pi / (if numSlices != 0 then numSlices else 1) as real
  }

  /** The angle increment: the configured angle when non-zero, else an equal
      split of the full turn among the ring children. */
  function AngleIncrement(cfg: Config, pi: real, count: nat): (a: real)
    ensures cfg.angle != 0.0 ==> a == cfg.angle
    ensures cfg.angle == 0.0 ==> a * (if count == 0 then 1 else count) as real == 2.0 * pi
  {
    if cfg.angle != 0.0 then cfg.angle else EqualAngle(pi, count)
  }

  /** `getLayoutRadius`: ring radius for a preset; unknown presets fall back
      to fitting the largest child. */
  function LayoutRadius(radiusPreset: int, outerRadius: int, maxChildRadius: int, minChildRadius: int): (r: int)
    ensures radiusPreset == FITS_SMALLEST_CHILD ==> r + minChildRadius == outerRadius
    ensures radiusPreset != FITS_SMALLEST_CHILD ==> r + maxChildRadius == outerRadius
  {
    if radiusPreset == FITS_LARGEST_CHILD then outerRadius - maxChildRadius
    else if radiusPreset == FITS_SMALLEST_CHILD then outerRadius - minChildRadius
    else outerRadius - maxChildRadius
  }

  /** The ring radius: the fixed radius when non-zero, else the preset's. */
  function ChooseLayoutRadius(cfg: Config, outerRadius: int, maxChildRadius: int, minChildRadius: int): (r: int)
    ensures cfg.fixedRadius != 0 ==> r == cfg.fixedRadius
    ensures cfg.fixedRadius == 0 ==> r == LayoutRadius(cfg.radiusPreset, outerRadius, maxChildRadius, minChildRadius)
  {
    if cfg.fixedRadius != 0 then cfg.fixedRadius
    else LayoutRadius(cfg.radiusPreset, outerRadius, maxChildRadius, minChildRadius)
  }

  /** The decisions of one pass for a session. */
  function RingChildren(s: Session): seq<nat>
  {
    ChildrenToLayout(s.children, s.config)
  }

  function RingCenter(s: Session): IntPoint
  {
    Center(s.bounds, s.padding)
  }

  function RingRadius(s: Session): int
  {
    var outer := OuterRadius(s.bounds, s.padding);
    var toLayout := RingChildren(s);
    ChooseLayoutRadius(s.config, outer, MaxChildRadius(s.children, toLayout), MinChildRadius(s.children, toLayout, outer))
  }

  /** The signed angle step between two consecutive ring children. */
  function RingStep(s: Session, trig: Trig): real
  {
    AngleIncrement(s.config, trig.pi, |RingChildren(s)|) * s.config.direction as real
  }

  /** Without a fixed radius, fitting the largest child keeps every ring
      child inside the outer circle, the largest one touching it. */
  lemma LargestPresetFitsEveryChild(s: Session)
    requires s.config.fixedRadius == 0 && s.config.radiusPreset != FITS_SMALLEST_CHILD
    ensures var toLayout := RingChildren(s);
      && (forall k :: 0 <= k < |toLayout| ==>
            RingRadius(s) + ChildRadius(s.children[toLayout[k]]) <= OuterRadius(s.bounds, s.padding))
      && (|toLayout| > 0 ==>
            exists k :: 0 <= k < |toLayout|
              && RingRadius(s) + ChildRadius(s.children[toLayout[k]]) == OuterRadius(s.bounds, s.padding))
  {
    var toLayout := RingChildren(s);
    var maxR := MaxChildRadius(s.children, toLayout);
    if |toLayout| > 0 && maxR == 0 {
      assert ChildRadius(s.children[toLayout[0]]) <= maxR;
    }
  }

  /** Without a fixed radius, fitting the smallest child makes the smallest
      ring child touch the outer circle and no ring child fall inside it. */
  lemma SmallestPresetFitsSmallestChild(s: Session)
    requires s.config.fixedRadius == 0 && s.config.radiusPreset == FITS_SMALLEST_CHILD
    ensures var toLayout := RingChildren(s);
      && (forall k :: 0 <= k < |toLayout| ==>
            RingRadius(s) + ChildRadius(s.children[toLayout[k]]) >= OuterRadius(s.bounds, s.padding))
      && (|toLayout| == 0 ==> RingRadius(s) == 0)
  {
  }

  /** The angle of the `k`-th ring child. */
  function RingAngle(angleOffset: real, step: real, k: nat): real
  {
    angleOffset + k as real * step
  }

  /** Starting one step later shifts every ring angle by one position. */
  lemma RingAngleAdvance(angleOffset: real, step: real, k: nat)
    ensures RingAngle(angleOffset + step, step, k) == RingAngle(angleOffset, step, k + 1)
  {
    assert (k + 1) as real * step == k as real * step + step;
  }

  /** A child placed on the ring at `angle`: its centre goes to the polar
      point, the y axis pointing down. */
  function PlaceOnRing(ch: Child, cx: int, cy: int, radius: int, angle: real, trig: Trig): (r: Child)
    ensures SameButFrame(r, ch)
    ensures r.frame.right - r.frame.left == ch.measuredWidth
    ensures r.frame.bottom - r.frame.top == ch.measuredHeight
    ensures r.frame.left + r.frame.right == 2 * (cx + PolarToX(trig, radius, angle)) + ch.measuredWidth % 2
    ensures r.frame.top + r.frame.bottom == 2 * (cy - PolarToY(trig, radius, angle)) + ch.measuredHeight % 2
  {
    ch.(frame := LayoutFromCenter(ch.measuredWidth, ch.measuredHeight,
                                  cx + PolarToX(trig, radius, angle), cy - PolarToY(trig, radius, angle)))
  }

  /** `layoutChildrenAtAngle`: places the ring children in order, advancing
      the running angle by `step` after each. */
  function LayoutChildrenAtAngle(children: seq<Child>, toLayout: seq<nat>, cx: int, cy: int,
                                 step: real, currentAngle: real, radius: int, trig: Trig): (r: seq<Child>)
    requires forall k :: 0 <= k < |toLayout| ==> toLayout[k] < |children|
    requires forall j, k :: 0 <= j < k < |toLayout| ==> toLayout[j] != toLayout[k]
    ensures |r| == |children|
    ensures forall i :: 0 <= i < |children| ==> SameButFrame(r[i], children[i])
    ensures forall i :: 0 <= i < |children| && i !in toLayout ==> r[i] == children[i]
    ensures forall k :: 0 <= k < |toLayout| ==>
      r[toLayout[k]] == PlaceOnRing(children[toLayout[k]], cx, cy, radius, RingAngle(currentAngle, step, k), trig)
    decreases |toLayout|
  {
    if |toLayout| == 0 then children
    else
      var i := toLayout[0];
      var placed := children[i := PlaceOnRing(children[i], cx, cy, radius, currentAngle, trig)];
      var rest := toLayout[1..];
      assert forall k :: 1 <= k < |toLayout| ==> rest[k - 1] == toLayout[k] && toLayout[k] != i;
      assert forall k :: 1 <= k < |toLayout| ==>
        RingAngle(currentAngle + step, step, k - 1) == RingAngle(currentAngle, step, k) by {
        forall k | 1 <= k < |toLayout|
          ensures RingAngle(currentAngle + step, step, k - 1) == RingAngle(currentAngle, step, k)
        {
          RingAngleAdvance(currentAngle, step, k - 1);
        }
      }
      LayoutChildrenAtAngle(placed, rest, cx, cy, step, currentAngle + step, radius, trig)
  }

  /** Two children agree on everything but where they were laid out. */
  predicate SameButFrame(a: Child, b: Child)
  {
    && a.viewId == b.viewId
    && a.measuredWidth == b.measuredWidth && a.measuredHeight == b.measuredHeight
    && a.visibility == b.visibility
    && a.selected == b.selected
  }

  /** The children with the centre view, if any, placed on the display centre. */
  function PlaceCenterView(s: Session): (r: seq<Child>)
    requires WellFormed(s)
    ensures |r| == |s.children|
    ensures forall i :: 0 <= i < |s.children| ==> SameButFrame(r[i], s.children[i])
    ensures forall i :: 0 <= i < |s.children| && Some(i) != s.config.centerView ==> r[i] == s.children[i]
    ensures s.config.centerView.Some? ==>
      var i := s.config.centerView.value; var c := RingCenter(s);
      r[i].frame == LayoutFromCenter(s.children[i].measuredWidth, s.children[i].measuredHeight, c.x, c.y)
  {
    var c := RingCenter(s);
    match s.config.centerView
    case None => s.children
    case Some(i) =>
      var ch := s.children[i];
      s.children[i := ch.(frame := LayoutFromCenter(ch.measuredWidth, ch.measuredHeight, c.x, c.y))]
  }

  /** Where a child lands on the ring depends on its size, not on where it was before. */
  lemma PlaceOnRingIgnoresFrame(a: Child, b: Child, cx: int, cy: int, radius: int, angle: real, trig: Trig)
    requires SameButFrame(a, b)
    ensures PlaceOnRing(a, cx, cy, radius, angle, trig).frame == PlaceOnRing(b, cx, cy, radius, angle, trig).frame
  {
  }

  /** Ring placement overwrites frames only, so where the ring children land
      does not depend on the frames they had before. */
  lemma {:induction false} RingIgnoresPriorFrames(a: seq<Child>, b: seq<Child>, toLayout: seq<nat>, cx: int, cy: int,
                                                  step: real, currentAngle: real, radius: int, trig: Trig)
    requires |a| == |b|
    requires forall i :: 0 <= i < |a| ==> SameButFrame(a[i], b[i])
    requires forall k :: 0 <= k < |toLayout| ==> toLayout[k] < |a|
    requires forall j, k :: 0 <= j < k < |toLayout| ==> toLayout[j] != toLayout[k]
    ensures var r := LayoutChildrenAtAngle(a, toLayout, cx, cy, step, currentAngle, radius, trig);
      forall k :: 0 <= k < |toLayout| ==>
        r[toLayout[k]].frame == PlaceOnRing(b[toLayout[k]], cx, cy, radius, RingAngle(currentAngle, step, k), trig).frame
  {
    forall k | 0 <= k < |toLayout|
      ensures PlaceOnRing(a[toLayout[k]], cx, cy, radius, RingAngle(currentAngle, step, k), trig).frame
           == PlaceOnRing(b[toLayout[k]], cx, cy, radius, RingAngle(currentAngle, step, k), trig).frame
    {
      PlaceOnRingIgnoresFrame(a[toLayout[k]], b[toLayout[k]], cx, cy, radius, RingAngle(currentAngle, step, k), trig);
    }
  }

  /** `onLayout`: places the centre view, then every ring child, in child
      order, at its angle on the ring. Nothing but the children's frames changes. */
  function OnLayout(s: Session, trig: Trig): (r: Session)
    requires WellFormed(s)
    ensures r.bounds == s.bounds && r.padding == s.padding && r.circles == s.circles
    ensures r.activeChildIndex == s.activeChildIndex && r.config == s.config
    ensures |r.children| == |s.children|
  {
    var c := RingCenter(s);
    var centred := PlaceCenterView(s);
    var toLayout := RingChildren(s);
    assert forall j, k :: 0 <= j < k < |toLayout| ==> toLayout[j] != toLayout[k];
    var placed := LayoutChildrenAtAngle(centred, toLayout, c.x, c.y, RingStep(s, trig),
                                        s.config.angleOffset, RingRadius(s), trig);
    s.(children := placed)
  }

  /** Every ring child, in child order, is centred on the ring point at the
      offset plus its position times the signed step. */
  lemma OnLayoutPlacesRing(s: Session, trig: Trig)
    requires WellFormed(s)
    ensures var r := OnLayout(s, trig); var toLayout := RingChildren(s); var c := RingCenter(s);
      forall k :: 0 <= k < |toLayout| ==>
        r.children[toLayout[k]].frame
        == PlaceOnRing(s.children[toLayout[k]], c.x, c.y, RingRadius(s),
                       RingAngle(s.config.angleOffset, RingStep(s, trig), k), trig).frame
  {
    var c := RingCenter(s);
    var toLayout := RingChildren(s);
    assert forall j, k :: 0 <= j < k < |toLayout| ==> toLayout[j] != toLayout[k];
    RingIgnoresPriorFrames(PlaceCenterView(s), s.children, toLayout, c.x, c.y, RingStep(s, trig),
                           s.config.angleOffset, RingRadius(s), trig);
  }

  /** `onLayout` keeps every child's identity and size and the session well formed. */
  lemma OnLayoutOnlyMovesChildren(s: Session, trig: Trig)
    requires WellFormed(s)
    ensures var r := OnLayout(s, trig);
      && (forall i :: 0 <= i < |s.children| ==> SameButFrame(r.children[i], s.children[i]))
      && WellFormed(r)
  {
  }

  /** The centre view, unless it is also a ring child, sits on the display
      centre; every other child off the ring keeps its frame. */
  lemma OnLayoutPlacesCenterView(s: Session, trig: Trig)
    requires WellFormed(s)
    ensures var r := OnLayout(s, trig);
      && (s.config.centerView.Some? && s.config.centerView.value !in RingChildren(s) ==>
            var i := s.config.centerView.value; var c := RingCenter(s);
            r.children[i].frame == LayoutFromCenter(s.children[i].measuredWidth, s.children[i].measuredHeight, c.x, c.y))
      && (forall i :: 0 <= i < |s.children| && i !in RingChildren(s) && Some(i) != s.config.centerView ==>
            r.children[i] == s.children[i])
  {
  }

  /** The ring is closed: with no configured angle, stepping once per ring
      child brings the angle a full turn (in the configured direction) past
      the offset. */
  lemma RingClosesAfterFullTurn(s: Session, trig: Trig)
    requires s.config.angle == 0.0 && |RingChildren(s)| > 0
    ensures RingAngle(s.config.angleOffset, RingStep(s, trig), |RingChildren(s)|)
      == s.config.angleOffset + 2.0 * trig.pi * s.config.direction as real
  {
    var n := |RingChildren(s)| as real;
    var inc := AngleIncrement(s.config, trig.pi, |RingChildren(s)|);
    assert inc * n == 2.0 * trig.pi;
    assert n * (inc * s.config.direction as real) == (inc * n) * s.config.direction as real;
  }

  /** Four ring children, no configured angle, zero offset, counter-clockwise:
      the children sit at quarter turns. */
  lemma FourChildrenAtQuarterTurns(pi: real)
    ensures var step := EqualAngle(pi, 4) * COUNTER_CLOCKWISE as real;
      && RingAngle(0.0, step, 0) == 0.0
      && RingAngle(0.0, step, 1) == pi / 2.0
      && RingAngle(0.0, step, 2) == pi
      && RingAngle(0.0, step, 3) == 3.0 * pi / 2.0
  {
  }
}
