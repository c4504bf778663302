/** `buildRelationsList` and the child click listener: every registered
    circle, in the registry's iteration order, takes its active flag from
    the active child index and stores a relation path to each listed circle
    that is not active at that moment. */
module RelationsRebuild {
  import opened Wrappers
  import opened Geometry
  import RelationPaths
  import CircleItems
  import opened CircleLayout
  import LayoutPass

  /** The exact centre of a child's hit rectangle (its laid-out frame). */
  function ChildCenter(ch: Child): RelationPaths.Point
  {
    RelationPaths.Point((ch.frame.left + ch.frame.right) as real / 2.0,
                        (ch.frame.top + ch.frame.bottom) as real / 2.0)
  }

  /** The layout's own `center()`, as a point. */
  function DisplayCenterPoint(s: Session): RelationPaths.Point
  {
    var c := Center(s.bounds, s.padding);
    RelationPaths.Point(c.x as real, c.y as real)
  }

  /** Every registry key in `circles` indexes one of the session's children. */
  predicate KeysIndexChildren(s: Session, circles: seq<Entry>)
  {
    forall q :: 0 <= q < |circles| ==> circles[q].key < |s.children|
  }

  /** The relation from the child at `fromKey` to the child at `toKey`: from
      centre to centre, curving through the layout's centre, carrying the
      first child's effective radius. */
  function MakeRelationPath(s: Session, fromKey: nat, toKey: nat): (rp: RelationPaths.RelationPath)
    requires fromKey < |s.children| && toKey < |s.children|
    ensures rp.from == ChildCenter(s.children[fromKey]) && rp.to == ChildCenter(s.children[toKey])
    ensures rp.center == DisplayCenterPoint(s)
    ensures 2 * rp.radius <= Max(s.children[fromKey].measuredWidth, s.children[fromKey].measuredHeight) <= 2 * rp.radius + 1
  {
    RelationPaths.RelationPath(ChildCenter(s.children[fromKey]), ChildCenter(s.children[toKey]),
                               DisplayCenterPoint(s), ChildRadius(s.children[fromKey]))
  }

  /** Whether the scan of circle `c` stores a relation to `x`: `x` is not
      `c`'s own id, some circle carries it, and the last such circle is not
      active in `targets`. */
  predicate Admits(targets: seq<Entry>, c: CircleItems.CircleItem, x: int)
  {
    x != c.id && FindCirclePosition(targets, x).Some? && !targets[FindCirclePosition(targets, x).value].item.active
  }

  /** The registry key of the last circle in `targets` carrying `x`. */
  function TargetKey(targets: seq<Entry>, x: int): nat
    requires FindCirclePosition(targets, x).Some?
  {
    targets[FindCirclePosition(targets, x).value].key
  }

  /** The inner loop of `buildRelationsList` for the circle at `key`: for
      each listed id, look up the last circle carrying it (throwing when
      there is none), skip it when it is active or is `c` itself, and add the
      relation otherwise. `targets` is the registry as the loop sees it. */
  function ScanRelations(s: Session, targets: seq<Entry>, key: nat, c: CircleItems.CircleItem, ids: seq<int>)
    : (r: Result<CircleItems.CircleItem, Error>)
    requires key < |s.children| && KeysIndexChildren(s, targets)
    ensures r.Success? <==> AllListed(targets, ids)
    ensures r.Failure? ==> r.error.NoSuchElement? && r.error.id in ids && !CheckExistingCircles(targets, r.error.id)
    ensures r.Success? ==>
      && r.value.id == c.id && r.value.active == c.active
      && c.relationsToCircles <= r.value.relationsToCircles
      && c.relationsWithPath.Keys <= r.value.relationsWithPath.Keys
      && forall y :: y in c.relationsWithPath ==> r.value.relationsWithPath[y] == c.relationsWithPath[y]
    decreases |ids|
  {
    if |ids| == 0 then Success(c)
    else
      var x := ids[0];
      match FindCirclePosition(targets, x)
      case None => Failure(NoSuchElement(x))
      case Some(q) =>
        var next := if targets[q].item.active || x == c.id then c
                    else CircleItems.AddRelation(c, x, MakeRelationPath(s, key, targets[q].key));
        var r := ScanRelations(s, targets, key, next, ids[1..]);
        assert forall k :: 1 <= k < |ids| ==> ids[1..][k - 1] == ids[k];
        r
  }

  /** Every relation the scan stores anew is to a listed, admitted id, with
      the path from the scanned circle's child to that circle's child. */
  lemma {:induction false} ScanStoresOnlyAdmitted(s: Session, targets: seq<Entry>, key: nat, c: CircleItems.CircleItem, ids: seq<int>)
    requires key < |s.children| && KeysIndexChildren(s, targets)
    requires ScanRelations(s, targets, key, c, ids).Success?
    ensures var r := ScanRelations(s, targets, key, c, ids).value;
      forall x :: x in r.relationsWithPath && x !in c.relationsWithPath ==>
        && x in ids && Admits(targets, c, x)
        && r.relationsWithPath[x] == MakeRelationPath(s, key, TargetKey(targets, x))
    decreases |ids|
  {
    if |ids| > 0 {
      var x := ids[0];
      var q := FindCirclePosition(targets, x).value;
      var next := if targets[q].item.active || x == c.id then c
                  else CircleItems.AddRelation(c, x, MakeRelationPath(s, key, targets[q].key));
      ScanStoresOnlyAdmitted(s, targets, key, next, ids[1..]);
    }
  }

  /** Every listed, admitted id ends up with a stored relation. */
  lemma {:induction false} ScanStoresEveryAdmitted(s: Session, targets: seq<Entry>, key: nat, c: CircleItems.CircleItem, ids: seq<int>)
    requires key < |s.children| && KeysIndexChildren(s, targets)
    requires ScanRelations(s, targets, key, c, ids).Success?
    ensures var r := ScanRelations(s, targets, key, c, ids).value;
      forall x :: x in ids && Admits(targets, c, x) ==> x in r.relationsWithPath
    decreases |ids|
  {
    if |ids| > 0 {
      var x := ids[0];
      var q := FindCirclePosition(targets, x).value;
      var next := if targets[q].item.active || x == c.id then c
                  else CircleItems.AddRelation(c, x, MakeRelationPath(s, key, targets[q].key));
      ScanStoresEveryAdmitted(s, targets, key, next, ids[1..]);
      forall y | y in ids && Admits(targets, c, y)
        ensures y in ScanRelations(s, targets, key, c, ids).value.relationsWithPath
      {
        if y != x {
          assert y in ids[1..];
        }
      }
    }
  }

  /** What the scan appends to the list is exactly the ids it stores anew,
      each once: it only calls `addRelation` for ids other than the circle's
      own, which append exactly the id they store. */
  lemma {:induction false} ScanAppendsExactlyStored(s: Session, targets: seq<Entry>, key: nat, c: CircleItems.CircleItem, ids: seq<int>)
    requires key < |s.children| && KeysIndexChildren(s, targets)
    requires ScanRelations(s, targets, key, c, ids).Success?
    ensures CircleItems.AppendsExactlyStored(c, ScanRelations(s, targets, key, c, ids).value)
    decreases |ids|
  {
    if |ids| > 0 {
      var x := ids[0];
      var q := FindCirclePosition(targets, x).value;
      var next := if targets[q].item.active || x == c.id then c
                  else CircleItems.AddRelation(c, x, MakeRelationPath(s, key, targets[q].key));
      if next != c {
        CircleItems.AddRelationAppendsExactlyStored(c, x, MakeRelationPath(s, key, targets[q].key));
      }
      ScanAppendsExactlyStored(s, targets, key, next, ids[1..]);
      CircleItems.AppendsExactlyStoredTrans(c, next, ScanRelations(s, targets, key, c, ids).value);
    }
  }

  /** Two registries that agree on every position's key, id and active flag. */
  predicate SameFlags(a: seq<Entry>, b: seq<Entry>)
  {
    && |a| == |b|
    && forall q :: 0 <= q < |a| ==>
         a[q].key == b[q].key && a[q].item.id == b[q].item.id && a[q].item.active == b[q].item.active
  }

  /** The lookup by id sees ids only. */
  lemma {:induction false} FindPositionSeesIdsOnly(a: seq<Entry>, b: seq<Entry>, id: int)
    requires |a| == |b| && forall q :: 0 <= q < |a| ==> a[q].item.id == b[q].item.id
    ensures FindCirclePosition(a, id) == FindCirclePosition(b, id)
    decreases |a|
  {
    if |a| > 0 {
      FindPositionSeesIdsOnly(a[..|a| - 1], b[..|b| - 1], id);
    }
  }

  /** The scan sees nothing of the registry but keys, ids and active flags. */
  lemma {:induction false} ScanSeesFlagsOnly(s: Session, t1: seq<Entry>, t2: seq<Entry>, key: nat, c: CircleItems.CircleItem, ids: seq<int>)
    requires key < |s.children| && KeysIndexChildren(s, t1) && KeysIndexChildren(s, t2)
    requires SameFlags(t1, t2)
    ensures ScanRelations(s, t1, key, c, ids) == ScanRelations(s, t2, key, c, ids)
    decreases |ids|
  {
    if |ids| > 0 {
      var x := ids[0];
      FindPositionSeesIdsOnly(t1, t2, x);
      match FindCirclePosition(t1, x)
      case None =>
      case Some(q) =>
        var next := if t1[q].item.active || x == c.id then c
                    else CircleItems.AddRelation(c, x, MakeRelationPath(s, key, t1[q].key));
        ScanSeesFlagsOnly(s, t1, t2, key, next, ids[1..]);
    }
  }

  /** A registry entry with its active flag set from the active child index. */
  function Activate(e: Entry, activeChildIndex: int): Entry
  {
    Entry(e.key, e.item.(active := e.key == activeChildIndex))
  }

  /** The registry as the scan of position `p` sees it: positions up to `p`
      already carry their new active flag, later ones still the old one. */
  function StaleView(orig: seq<Entry>, activeChildIndex: int, p: nat): (r: seq<Entry>)
    ensures |r| == |orig|
    ensures forall q :: 0 <= q < |orig| ==> r[q] == if q <= p then Activate(orig[q], activeChildIndex) else orig[q]
  {
    seq(|orig|, q requires 0 <= q < |orig| => if q <= p then Activate(orig[q], activeChildIndex) else orig[q])
  }

  /** What the rebuild computes for position `q`, stated from the session
      before the rebuild: the scan of the circle's initial list, with the
      circle's new active flag, against the stale view. */
  function ExpectedScan(s: Session, q: nat): Result<CircleItems.CircleItem, Error>
    requires WellFormed(s) && q < |s.circles|
  {
    var e := Activate(s.circles[q], s.activeChildIndex);
    ScanRelations(s, StaleView(s.circles, s.activeChildIndex, q), e.key, e.item, s.circles[q].item.relationsToCircles)
  }

  /** Two registries with the same keys and ids, position by position. */
  predicate SameRegistry(a: seq<Entry>, b: seq<Entry>)
  {
    && |a| == |b|
    && forall q :: 0 <= q < |a| ==> a[q].key == b[q].key && a[q].item.id == b[q].item.id
  }

  /** Whether some circle from position `p` on lists an id no circle carries. */
  predicate MissingFrom(circles: seq<Entry>, p: nat)
  {
    exists q :: p <= q < |circles| && !AllListed(circles, circles[q].item.relationsToCircles)
  }

  /** Whether any circle lists an id no circle carries. */
  predicate AnyMissing(circles: seq<Entry>)
  {
    MissingFrom(circles, 0)
  }

  /** Some circle lists an id no circle carries exactly when some entry of
      some list names no registered circle. */
  lemma AnyMissingMeans(circles: seq<Entry>)
    ensures AnyMissing(circles) <==>
      exists q, k :: 0 <= q < |circles| && 0 <= k < |circles[q].item.relationsToCircles|
        && !CheckExistingCircles(circles, circles[q].item.relationsToCircles[k])
  {
    forall q | 0 <= q < |circles|
      ensures AllListed(circles, circles[q].item.relationsToCircles)
          <==> forall k :: 0 <= k < |circles[q].item.relationsToCircles| ==>
                 CheckExistingCircles(circles, circles[q].item.relationsToCircles[k])
    {
      AllListedMeans(circles, circles[q].item.relationsToCircles);
    }
  }

  /** Registries with the same ids, position by position, carry the same ids. */
  lemma SameIdsSameExistence(a: seq<Entry>, b: seq<Entry>)
    requires |a| == |b| && forall q :: 0 <= q < |a| ==> a[q].item.id == b[q].item.id
    ensures forall x :: CheckExistingCircles(a, x) == CheckExistingCircles(b, x)
  {
    forall x
      ensures CheckExistingCircles(a, x) == CheckExistingCircles(b, x)
    {
      FindPositionSeesIdsOnly(a, b, x);
    }
  }

  /** Whether every id of `ids` is carried by some circle of `circles`. */
  predicate AllListed(circles: seq<Entry>, ids: seq<int>)
    decreases |ids|
  {
    |ids| == 0 || (CheckExistingCircles(circles, ids[0]) && AllListed(circles, ids[1..]))
  }

  /** `AllListed` checks every id. */
  lemma {:induction false} AllListedMeans(circles: seq<Entry>, ids: seq<int>)
    ensures AllListed(circles, ids) <==> forall k :: 0 <= k < |ids| ==> CheckExistingCircles(circles, ids[k])
    decreases |ids|
  {
    if |ids| > 0 {
      AllListedMeans(circles, ids[1..]);
      assert forall k :: 1 <= k < |ids| ==> ids[1..][k - 1] == ids[k];
    }
  }

  /** `AllListed` sees only which ids are carried. */
  lemma {:induction false} AllListedSeesExistence(a: seq<Entry>, b: seq<Entry>, ids: seq<int>)
    requires forall x :: CheckExistingCircles(a, x) == CheckExistingCircles(b, x)
    ensures AllListed(a, ids) == AllListed(b, ids)
    decreases |ids|
  {
    if |ids| > 0 {
      AllListedSeesExistence(a, b, ids[1..]);
    }
  }

  /** Peeling position `p` off `MissingFrom`. */
  lemma MissingFromPeel(circles: seq<Entry>, p: nat)
    requires p < |circles|
    ensures MissingFrom(circles, p)
        <==> !AllListed(circles, circles[p].item.relationsToCircles) || MissingFrom(circles, p + 1)
  {
    if MissingFrom(circles, p) {
      var q :| p <= q < |circles| && !AllListed(circles, circles[q].item.relationsToCircles);
      if q > p {
        assert MissingFrom(circles, p + 1);
      }
    }
  }

  /** The expected scan of position `p` throws exactly when the circle there
      lists an id no circle carries. */
  lemma ExpectedScanSucceeds(s: Session, p: nat)
    requires WellFormed(s) && p < |s.circles|
    ensures ExpectedScan(s, p).Success? <==> AllListed(s.circles, s.circles[p].item.relationsToCircles)
  {
    var stale := StaleView(s.circles, s.activeChildIndex, p);
    SameIdsSameExistence(stale, s.circles);
    AllListedSeesExistence(stale, s.circles, s.circles[p].item.relationsToCircles);
  }

  /** The outer loop of `buildRelationsList` from position `p` on. Each step
      scans the registry as it stands; what it stores is the scan against
      the stale view of that step. */
  function RebuildFrom(s: Session, circles: seq<Entry>, p: nat): (r: Result<seq<Entry>, Error>)
    requires WellFormed(s) && RebuildInvariant(s, circles, p)
    ensures r.Failure? <==> MissingFrom(s.circles, p)
    ensures r.Success? ==> |r.value| == |circles| && forall q :: 0 <= q < p ==> r.value[q] == circles[q]
    ensures r.Success? ==>
      forall q :: p <= q < |circles| ==>
        ExpectedScan(s, q).Success? && r.value[q] == Entry(s.circles[q].key, ExpectedScan(s, q).value)
    decreases |circles| - p
  {
    if p == |circles| then Success(circles)
    else
      var e := Activate(circles[p], s.activeChildIndex);
      RebuildStepFacts(s, circles, p);
      match ScanRelations(s, circles[p := e], e.key, e.item, e.item.relationsToCircles)
      case Failure(err) => Failure(err)
      case Success(c2) => RebuildFrom(s, circles[p := Entry(e.key, c2)], p + 1)
  }

  /** What one step of the outer loop needs: the scan it runs is the
      expected one, a failing scan means a missing id, and a successful one
      leaves the invariant for the next step. */
  lemma RebuildStepFacts(s: Session, circles: seq<Entry>, p: nat)
    requires WellFormed(s) && RebuildInvariant(s, circles, p) && p < |circles|
    ensures var e := Activate(circles[p], s.activeChildIndex);
      && KeysIndexChildren(s, circles[p := e])
      && ScanRelations(s, circles[p := e], e.key, e.item, e.item.relationsToCircles) == ExpectedScan(s, p)
      && (ExpectedScan(s, p).Failure? ==> MissingFrom(s.circles, p))
      && (ExpectedScan(s, p).Success? ==>
            && (MissingFrom(s.circles, p) <==> MissingFrom(s.circles, p + 1))
            && RebuildInvariant(s, circles[p := Entry(e.key, ExpectedScan(s, p).value)], p + 1))
  {
    StepScansStaleView(s, circles, p);
    ExpectedScanSucceeds(s, p);
    MissingFromPeel(s.circles, p);
    if ExpectedScan(s, p).Success? {
      StepKeepsInvariant(s, circles, p, ExpectedScan(s, p).value);
    }
  }

  /** The children with each registered child's selected flag set to whether
      it is the active child. */
  function MarkSelected(children: seq<Child>, circles: seq<Entry>, activeChildIndex: int): (r: seq<Child>)
    requires forall q :: 0 <= q < |circles| ==> circles[q].key < |children|
    ensures |r| == |children|
    ensures forall i :: 0 <= i < |children| ==>
      r[i] == children[i].(selected := r[i].selected)
      && r[i].selected == if i in Keys(circles) then i == activeChildIndex else children[i].selected
    decreases |circles|
  {
    if |circles| == 0 then children
    else
      var last := circles[|circles| - 1].key;
      var front := MarkSelected(children, circles[..|circles| - 1], activeChildIndex);
      assert Keys(circles) == Keys(circles[..|circles| - 1]) + {last} by {
        var init := circles[..|circles| - 1];
        forall x | x in Keys(circles)
          ensures x in Keys(init) + {last}
        {
          var q :| 0 <= q < |circles| && circles[q].key == x;
          if q < |init| { assert init[q] == circles[q]; }
        }
        forall x | x in Keys(init)
          ensures x in Keys(circles)
        {
          var q :| 0 <= q < |init| && init[q].key == x;
          assert circles[q] == init[q];
        }
      }
      front[last := front[last].(selected := last == activeChildIndex)]
  }

  /** The registry keys. */
  function Keys(circles: seq<Entry>): set<int>
  {
    set q | 0 <= q < |circles| :: circles[q].key
  }

  /** What holds of the registry before the rebuild's step `p`: positions
      before `p` carry their new active flag, the others are untouched. */
  predicate RebuildInvariant(s: Session, circles: seq<Entry>, p: nat)
  {
    && SameRegistry(circles, s.circles) && p <= |circles|
    && (forall q :: 0 <= q < p ==> circles[q].item.active == (circles[q].key == s.activeChildIndex))
    && (forall q :: p <= q < |circles| ==> circles[q] == s.circles[q])
  }

  /** At step `p` the scan sees the stale view of step `p`. */
  lemma StepScansStaleView(s: Session, circles: seq<Entry>, p: nat)
    requires WellFormed(s) && RebuildInvariant(s, circles, p) && p < |circles|
    ensures var e := Activate(circles[p], s.activeChildIndex);
      && KeysIndexChildren(s, circles[p := e])
      && ScanRelations(s, circles[p := e], e.key, e.item, e.item.relationsToCircles) == ExpectedScan(s, p)
  {
    var e := Activate(circles[p], s.activeChildIndex);
    var stale := StaleView(s.circles, s.activeChildIndex, p);
    assert SameFlags(circles[p := e], stale);
    ScanSeesFlagsOnly(s, circles[p := e], stale, e.key, e.item, e.item.relationsToCircles);
  }

  /** Storing the scanned circle at `p` establishes the invariant for `p + 1`. */
  lemma StepKeepsInvariant(s: Session, circles: seq<Entry>, p: nat, c2: CircleItems.CircleItem)
    requires RebuildInvariant(s, circles, p) && p < |circles|
    requires c2.id == circles[p].item.id && c2.active == (circles[p].key == s.activeChildIndex)
    ensures RebuildInvariant(s, circles[p := Entry(circles[p].key, c2)], p + 1)
  {
  }

  /** `buildRelationsList`: the rebuild throws when some circle lists an id
      no circle carries; otherwise each circle becomes the scan of its
      initial list against the stale view of its own step, and the
      registered children's selected flags are set. */
  function BuildRelationsList(s: Session): (r: Result<Session, Error>)
    requires WellFormed(s)
    ensures r.Failure? <==> AnyMissing(s.circles)
    ensures r.Success? ==>
      && r.value.bounds == s.bounds && r.value.padding == s.padding
      && r.value.activeChildIndex == s.activeChildIndex && r.value.config == s.config
      && |r.value.circles| == |s.circles| && |r.value.children| == |s.children|
    ensures r.Success? ==>
      forall q :: 0 <= q < |s.circles| ==>
        ExpectedScan(s, q).Success? && r.value.circles[q] == Entry(s.circles[q].key, ExpectedScan(s, q).value)
  {
    match RebuildFrom(s, s.circles, 0)
    case Failure(err) => Failure(err)
    case Success(circles) =>
      Success(s.(circles := circles, children := MarkSelected(s.children, s.circles, s.activeChildIndex)))
  }

  /** After a rebuild exactly the circle of the active child is active, and
      the registry keeps its keys and ids. */
  lemma RebuildActivatesActiveChild(s: Session)
    requires WellFormed(s)
    ensures var r := BuildRelationsList(s);
      r.Success? ==>
        && SameRegistry(r.value.circles, s.circles)
        && forall q :: 0 <= q < |s.circles| ==>
             r.value.circles[q].item.active == (s.circles[q].key == s.activeChildIndex)
  {
    var r := BuildRelationsList(s);
    if r.Success? {
      forall q | 0 <= q < |s.circles|
        ensures r.value.circles[q].key == s.circles[q].key
        ensures r.value.circles[q].item.id == s.circles[q].item.id
        ensures r.value.circles[q].item.active == (s.circles[q].key == s.activeChildIndex)
      {
        var e := Activate(s.circles[q], s.activeChildIndex);
        assert ExpectedScan(s, q).value.id == e.item.id && ExpectedScan(s, q).value.active == e.item.active;
      }
    }
  }

  /** After a rebuild every registered child is selected exactly when it is
      the active child; nothing else about any child changes. */
  lemma RebuildSelectsActiveChild(s: Session)
    requires WellFormed(s)
    ensures var r := BuildRelationsList(s);
      r.Success? ==>
        forall i :: 0 <= i < |s.children| ==>
          && r.value.children[i] == s.children[i].(selected := r.value.children[i].selected)
          && r.value.children[i].selected == if i in Keys(s.circles) then i == s.activeChildIndex else s.children[i].selected
  {
  }

  /** The rebuild only adds: each circle keeps its list as a prefix and every
      stored path it had, and its list grows by exactly the ids it newly
      stores, each once. */
  lemma RebuildKeepsRelations(s: Session)
    requires WellFormed(s)
    ensures var r := BuildRelationsList(s);
      r.Success? ==>
        forall q :: 0 <= q < |s.circles| ==>
          var before := s.circles[q].item; var after := r.value.circles[q].item;
          && before.relationsToCircles <= after.relationsToCircles
          && before.relationsWithPath.Keys <= after.relationsWithPath.Keys
          && (forall y :: y in before.relationsWithPath ==> after.relationsWithPath[y] == before.relationsWithPath[y])
          && CircleItems.AppendsExactlyStored(before, after)
          && |after.relationsToCircles| - |before.relationsToCircles|
             == |after.relationsWithPath.Keys - before.relationsWithPath.Keys|
  {
    var r := BuildRelationsList(s);
    if r.Success? {
      forall q | 0 <= q < |s.circles|
        ensures CircleItems.AppendsExactlyStored(s.circles[q].item, r.value.circles[q].item)
        ensures |r.value.circles[q].item.relationsToCircles| - |s.circles[q].item.relationsToCircles|
             == |r.value.circles[q].item.relationsWithPath.Keys - s.circles[q].item.relationsWithPath.Keys|
      {
        RebuiltCircleAppendsExactlyStored(s, q);
        CircleItems.AppendedCountsNewKeys(s.circles[q].item, r.value.circles[q].item);
      }
    }
  }

  /** One circle of a successful rebuild appends exactly what it stores. */
  lemma RebuiltCircleAppendsExactlyStored(s: Session, q: nat)
    requires WellFormed(s) && q < |s.circles| && BuildRelationsList(s).Success?
    ensures CircleItems.AppendsExactlyStored(s.circles[q].item, BuildRelationsList(s).value.circles[q].item)
  {
    var e := Activate(s.circles[q], s.activeChildIndex);
    var stale := StaleView(s.circles, s.activeChildIndex, q);
    ScanAppendsExactlyStored(s, stale, e.key, e.item, s.circles[q].item.relationsToCircles);
  }

  /** After a successful rebuild every id on every list is registered: the
      old entries were (or the rebuild would have thrown), and the appended
      ones are ids whose circle the scan found. */
  lemma RebuiltListsRegistered(s: Session, q: nat)
    requires WellFormed(s) && q < |s.circles| && BuildRelationsList(s).Success?
    ensures var after := BuildRelationsList(s).value.circles[q].item;
      forall k :: 0 <= k < |after.relationsToCircles| ==> CheckExistingCircles(s.circles, after.relationsToCircles[k])
  {
    var before := s.circles[q].item;
    var after := BuildRelationsList(s).value.circles[q].item;
    assert !MissingFrom(s.circles, 0);
    assert AllListed(s.circles, before.relationsToCircles);
    AllListedMeans(s.circles, before.relationsToCircles);
    RebuiltCircleAppendsExactlyStored(s, q);
    forall k | |before.relationsToCircles| <= k < |after.relationsToCircles|
      ensures CheckExistingCircles(s.circles, after.relationsToCircles[k])
    {
      AppendedIsRegistered(s, q, after.relationsToCircles[k]);
    }
  }

  /** An id the scan of circle `q` newly stores is registered. */
  lemma AppendedIsRegistered(s: Session, q: nat, x: int)
    requires WellFormed(s) && q < |s.circles| && ExpectedScan(s, q).Success?
    requires x in ExpectedScan(s, q).value.relationsWithPath && x !in s.circles[q].item.relationsWithPath
    ensures CheckExistingCircles(s.circles, x)
  {
    var e := Activate(s.circles[q], s.activeChildIndex);
    var stale := StaleView(s.circles, s.activeChildIndex, q);
    ScanStoresOnlyAdmitted(s, stale, e.key, e.item, s.circles[q].item.relationsToCircles);
    assert FindCirclePosition(stale, x).Some?;
    FindPositionSeesIdsOnly(stale, s.circles, x);
  }

  /** Two sessions with the same configuration, the same registry keys and
      ids, and children with the same view ids are well formed together. */
  lemma SameShapeKeepsWellFormed(a: Session, b: Session)
    requires WellFormed(a) && a.config == b.config && SameRegistry(b.circles, a.circles)
    requires |a.children| == |b.children| && forall i :: 0 <= i < |a.children| ==> a.children[i].viewId == b.children[i].viewId
    ensures WellFormed(b)
  {
  }

  /** A successful rebuild keeps the session well formed. */
  lemma RebuildKeepsWellFormed(s: Session)
    requires WellFormed(s) && BuildRelationsList(s).Success?
    ensures WellFormed(BuildRelationsList(s).value)
  {
    RebuildActivatesActiveChild(s);
    RebuildSelectsActiveChild(s);
    SameShapeKeepsWellFormed(s, BuildRelationsList(s).value);
  }

  /** A successful rebuild leaves a well-formed session whose every listed
      id is registered, so rebuilding it again (the next click or layout
      pass) succeeds too. */
  lemma RebuildIsRepeatable(s: Session)
    requires WellFormed(s) && BuildRelationsList(s).Success?
    ensures var r := BuildRelationsList(s).value;
      && WellFormed(r)
      && !AnyMissing(r.circles)
      && BuildRelationsList(r).Success?
  {
    var r := BuildRelationsList(s).value;
    RebuildKeepsWellFormed(s);
    RebuildActivatesActiveChild(s);
    SameIdsSameExistence(r.circles, s.circles);
    forall q | 0 <= q < |r.circles|
      ensures AllListed(r.circles, r.circles[q].item.relationsToCircles)
    {
      RebuiltListsRegistered(s, q);
      AllListedMeans(r.circles, r.circles[q].item.relationsToCircles);
    }
  }

  /** A circle gains a relation to `x` exactly when `x` is on its list, is not
      its own id, and the last circle carrying `x` was not active when the
      circle was scanned; the stored path runs between the two children. */
  lemma RebuildStoresExactlyAdmitted(s: Session, q: nat)
    requires WellFormed(s) && q < |s.circles| && BuildRelationsList(s).Success?
    ensures var before := s.circles[q].item;
      var after := BuildRelationsList(s).value.circles[q].item;
      var stale := StaleView(s.circles, s.activeChildIndex, q);
      && (forall x :: x !in before.relationsWithPath ==>
            (x in after.relationsWithPath <==> x in before.relationsToCircles && Admits(stale, before, x)))
      && (forall x :: x in after.relationsWithPath && x !in before.relationsWithPath ==>
            FindCirclePosition(stale, x).Some? && TargetKey(stale, x) < |s.children|
            && after.relationsWithPath[x] == MakeRelationPath(s, s.circles[q].key, TargetKey(stale, x)))
  {
    var e := Activate(s.circles[q], s.activeChildIndex);
    var stale := StaleView(s.circles, s.activeChildIndex, q);
    ScanStoresOnlyAdmitted(s, stale, e.key, e.item, s.circles[q].item.relationsToCircles);
    ScanStoresEveryAdmitted(s, stale, e.key, e.item, s.circles[q].item.relationsToCircles);
  }

  /** Two circles on two equal children: circle 10 at child 0 lists circle
      20, which sits at child 1 and is the active one; child 0 has just been
      made the active child. */
  function StaleExample(ch: Child, cfg: Config, bounds: Rect, padding: Padding): Session
  {
    Session(bounds, padding, [ch, ch],
            [Entry(0, CircleItems.CircleItem(10, false, [20], map[])),
             Entry(1, CircleItems.CircleItem(20, true, [], map[]))],
            0, cfg)
  }

  /** The example is well formed and lists no missing id. */
  lemma StaleExampleIsValid(ch: Child, cfg: Config, bounds: Rect, padding: Padding)
    requires ValidConfig(cfg, [ch, ch])
    ensures WellFormed(StaleExample(ch, cfg, bounds, padding))
    ensures !AnyMissing(StaleExample(ch, cfg, bounds, padding).circles)
  {
    var circles := StaleExample(ch, cfg, bounds, padding).circles;
    assert circles[1].item.id == 20;
    assert CheckExistingCircles(circles, 20);
  }

  /** A stale flag can hide a relation: circle 10's scan still sees circle
      20 as active and stores nothing, although circle 20 is inactive once
      the rebuild is over. */
  lemma StaleFlagSkipsRelation(ch: Child, cfg: Config, bounds: Rect, padding: Padding)
    requires ValidConfig(cfg, [ch, ch])
    ensures WellFormed(StaleExample(ch, cfg, bounds, padding))
    ensures var r := BuildRelationsList(StaleExample(ch, cfg, bounds, padding));
      && r.Success?
      && r.value.circles[0].item.relationsWithPath == map[]
      && !r.value.circles[1].item.active
  {
    var s := StaleExample(ch, cfg, bounds, padding);
    StaleExampleIsValid(ch, cfg, bounds, padding);
    var stale := StaleView(s.circles, 0, 0);
    assert stale[1] == s.circles[1];
    assert FindCirclePosition(stale, 20) == Some(1);
  }

  /** The click listener: the clicked child becomes the active child and the
      relations are rebuilt; afterwards only the clicked child's circle is
      active. */
  function OnChildClick(s: Session, index: nat): (r: Result<Session, Error>)
    requires WellFormed(s) && index < |s.children|
    ensures r.Failure? <==> AnyMissing(s.circles)
    ensures r.Success? ==>
      && r.value.activeChildIndex == index && |r.value.children| == |s.children|
      && SameRegistry(r.value.circles, s.circles)
      && (forall q :: 0 <= q < |s.circles| ==> (r.value.circles[q].item.active <==> s.circles[q].key == index))
      && (forall p, q :: 0 <= p < q < |s.circles| ==> !(r.value.circles[p].item.active && r.value.circles[q].item.active))
      && (forall i :: 0 <= i < |s.children| && i in Keys(s.circles) ==> (r.value.children[i].selected <==> i == index))
  {
    RebuildActivatesActiveChild(s.(activeChildIndex := index));
    RebuildSelectsActiveChild(s.(activeChildIndex := index));
    BuildRelationsList(s.(activeChildIndex := index))
  }

  /** A layout pass followed by the rebuild it posts: the rebuild sees the
      frames the pass produced, and whether it throws does not depend on
      the layout. */
  function LayoutThenRebuild(s: Session, trig: LayoutPass.Trig): (r: Result<Session, Error>)
    requires WellFormed(s)
    ensures r.Failure? <==> AnyMissing(s.circles)
    ensures r.Success? ==>
      && r.value.config == s.config && r.value.activeChildIndex == s.activeChildIndex
      && |r.value.children| == |s.children|
      && forall i :: 0 <= i < |s.children| ==> r.value.children[i].frame == LayoutPass.OnLayout(s, trig).children[i].frame
  {
    LayoutPass.OnLayoutOnlyMovesChildren(s, trig);
    BuildRelationsList(LayoutPass.OnLayout(s, trig))
  }
}
