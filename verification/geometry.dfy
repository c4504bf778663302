/** Integer placement helpers of the layout: the extension properties and
    functions on views and view groups. */
module Geometry {

  /** An axis-aligned rectangle in parent coordinates, as handed to `layout`. */
  datatype Rect = Rect(left: int, top: int, right: int, bottom: int)

  /** The four paddings of a view. */
  datatype Padding = Padding(left: int, top: int, right: int, bottom: int)

  /** A point with integer coordinates. */
  datatype IntPoint = IntPoint(x: int, y: int)

  function Max(a: int, b: int): int { if a >= b then a else b }

  function Min(a: int, b: int): int { if a <= b then a else b }

  /** Integer halving as the JVM does it: the quotient rounds toward zero,
      whereas Dafny's `/` is Euclidean. */
  function Half(x: int): (r: int)
    ensures x >= 0 ==> 0 <= x - 2 * r <= 1
    ensures x < 0 ==> -1 <= x - 2 * r <= 0
  {
    if x >= 0 then x / 2 else -((-x) / 2)
  }

  /** Rounding toward zero, as `Double.toInt()` does for finite values. */
  function TruncToInt(x: real): (r: int)
    ensures x >= 0.0 ==> 0 <= r && r as real <= x < r as real + 1.0
    ensures x < 0.0 ==> r <= 0 && r as real - 1.0 < x <= r as real
  {
    if x >= 0.0 then x.Floor else -((-x).Floor)
  }

  /** The effective radius of a view if it were round: half of its larger
      measured dimension. */
  function Radius(measuredWidth: nat, measuredHeight: nat): (r: nat)
    ensures 2 * r <= Max(measuredWidth, measuredHeight) <= 2 * r + 1
    ensures r >= measuredWidth / 2 && r >= measuredHeight / 2
    ensures r == measuredWidth / 2 || r == measuredHeight / 2
  {
    Half(Max(measuredWidth, measuredHeight))
  }

  /** The rectangle a view of the given measured size occupies when it is
      laid out with its centre on `(cx, cy)`. */
  function LayoutFromCenter(measuredWidth: nat, measuredHeight: nat, cx: int, cy: int): (r: Rect)
    ensures r.right - r.left == measuredWidth && r.bottom - r.top == measuredHeight
    ensures r.left <= cx <= r.right && r.top <= cy <= r.bottom
    ensures r.left + r.right == 2 * cx + measuredWidth % 2
    ensures r.top + r.bottom == 2 * cy + measuredHeight % 2
  {
    var left := cx - Half(measuredWidth);
    var top := cy - Half(measuredHeight);
    Rect(left, top, left + measuredWidth, top + measuredHeight)
  }

  /** With even measured sizes the placed rectangle is centred exactly on `(cx, cy)`. */
  lemma LayoutFromCenterIsCentred(measuredWidth: nat, measuredHeight: nat, cx: int, cy: int)
    requires measuredWidth % 2 == 0 && measuredHeight % 2 == 0
    ensures var r := LayoutFromCenter(measuredWidth, measuredHeight, cx, cy);
      r.left + r.right == 2 * cx && r.top + r.bottom == 2 * cy
  {
  }

  /** Width of the display area: the view's box less its horizontal paddings. */
  function DisplayWidth(bounds: Rect, padding: Padding): int
  {
    (bounds.right - padding.right) - (bounds.left + padding.left)
  }

  /** Height of the display area: the view's box less its vertical paddings. */
  function DisplayHeight(bounds: Rect, padding: Padding): int
  {
    (bounds.bottom - padding.bottom) - (bounds.top + padding.top)
  }

  /** The centre of the display area in the view's own coordinates.
      The horizontal coordinate splits the display width from the left
      padding; the vertical one splits the display height but starts from
      the RIGHT padding, as `View.center()` does. */
  function Center(bounds: Rect, padding: Padding): (c: IntPoint)
    ensures var w := DisplayWidth(bounds, padding);
      w >= 0 ==>
        padding.left <= c.x <= padding.left + w
        && 0 <= (padding.left + w - c.x) - (c.x - padding.left) <= 1
    ensures var w := DisplayWidth(bounds, padding);
      w < 0 ==>
        padding.left + w <= c.x <= padding.left
        && -1 <= w - 2 * (c.x - padding.left) <= 0
    ensures var h := DisplayHeight(bounds, padding);
      h >= 0 ==>
        padding.right <= c.y <= padding.right + h
        && 0 <= (padding.right + h - c.y) - (c.y - padding.right) <= 1
    ensures var h := DisplayHeight(bounds, padding);
      h < 0 ==>
        padding.right + h <= c.y <= padding.right
        && -1 <= h - 2 * (c.y - padding.right) <= 0
  {
    IntPoint(padding.left + Half(DisplayWidth(bounds, padding)),
             padding.right + Half(DisplayHeight(bounds, padding)))
  }

  /** The vertical centre is midway between the top and bottom paddings'
      edges exactly when the top and right paddings agree. */
  lemma VerticalCentreQuirk(bounds: Rect, padding: Padding)
    requires DisplayHeight(bounds, padding) >= 0
    ensures var h := DisplayHeight(bounds, padding);
      var y := Center(bounds, padding).y;
      (0 <= (padding.top + h - y) - (y - padding.top) <= 1) <==> padding.top == padding.right
  {
  }

  /** The radius of the largest circle that fits the display area; when the
      paddings exceed the box the negative minimum is halved toward zero. */
  function OuterRadius(bounds: Rect, padding: Padding): (r: int)
    ensures var m := Min(DisplayWidth(bounds, padding), DisplayHeight(bounds, padding));
      m >= 0 ==> 0 <= r && 2 * r <= m <= 2 * r + 1
    ensures var m := Min(DisplayWidth(bounds, padding), DisplayHeight(bounds, padding));
      m < 0 ==> r <= 0 && 2 * r - 1 <= m <= 2 * r
  {
    Half(Min(DisplayWidth(bounds, padding), DisplayHeight(bounds, padding)))
  }

  /** The order in which `forEachChild` visits the children of a group of
      `childCount` children. */
  function ForEachChildOrder(childCount: nat): (r: seq<nat>)
    ensures |r| == childCount
    ensures forall k :: 0 <= k < |r| ==> r[k] == k
  {
    if childCount == 0 then [] else ForEachChildOrder(childCount - 1) + [childCount - 1]
  }

  /** Every child index is visited exactly once, in ascending order. */
  lemma ForEachChildVisitsEachOnce(childCount: nat)
    ensures var r := ForEachChildOrder(childCount);
      (forall i: nat :: i < childCount <==> i in r)
      && (forall j, k :: 0 <= j < k < |r| ==> r[j] < r[k])
  {
    var r := ForEachChildOrder(childCount);
    forall i: nat | i < childCount
      ensures i in r
    {
      assert r[i] == i;
    }
  }
}
