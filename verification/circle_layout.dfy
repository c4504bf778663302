/** The layout session of the circular layout: its children, its registry
    of circles keyed by child index, the active child index and the
    configuration, with the validating setters and the registry operations. */
module CircleLayout {
  import opened Wrappers
  import opened Geometry
  import CircleItems

  /** Radius presets. */
  const FITS_SMALLEST_CHILD: int := 0
  const FITS_LARGEST_CHILD: int := 1

  /** Directions of rotation. */
  const COUNTER_CLOCKWISE: int := 1
  const CLOCKWISE: int := -1

  /** The platform's "no view id". */
  const NO_ID: int := -1

  datatype Visibility = Visible | Invisible | Gone

  /** A child view: its view id, measured size (never negative), visibility,
      the rectangle it was last laid out at, and its selected flag. */
  datatype Child = Child(
    viewId: int,
    measuredWidth: nat,
    measuredHeight: nat,
    visibility: Visibility,
    frame: Rect,
    selected: bool)

  /** The effective radius of a child. */
  function ChildRadius(ch: Child): nat
  {
    Radius(ch.measuredWidth, ch.measuredHeight)
  }

  /** One registry entry: the index of the circle's child view and the circle. */
  datatype Entry = Entry(key: nat, item: CircleItems.CircleItem)

  /** The configuration. Angles are in radians; `centerView` is the index of
      the designated centre child, `centerViewId` its view id. */
  datatype Config = Config(
    angle: real,
    angleOffset: real,
    fixedRadius: int,
    radiusPreset: int,
    direction: int,
    centerViewId: int,
    centerView: Option<nat>)

  /** A layout session. `bounds` is the layout's box in its parent; `circles`
      is the registry in its iteration order. */
  datatype Session = Session(
    bounds: Rect,
    padding: Padding,
    children: seq<Child>,
    circles: seq<Entry>,
    activeChildIndex: int,
    config: Config)

  /** The exceptions the layout throws. */
  datatype Error = IllegalArgument | NoSuchElement(id: int)

  /** The configuration the setters maintain. */
  predicate ValidConfig(cfg: Config, children: seq<Child>)
  {
    && (cfg.radiusPreset == FITS_SMALLEST_CHILD || cfg.radiusPreset == FITS_LARGEST_CHILD)
    && (cfg.direction == COUNTER_CLOCKWISE || cfg.direction == CLOCKWISE)
    && match cfg.centerView
       case None => cfg.centerViewId == NO_ID
       case Some(i) => i < |children| && cfg.centerViewId == children[i].viewId
  }

  /** The registry keys index children, no two entries share a key, and no
      two circles share an id. The order of the entries is the map's
      iteration order, which the model does not fix. */
  predicate RegistryWellFormed(circles: seq<Entry>, childCount: nat)
  {
    && (forall p :: 0 <= p < |circles| ==> circles[p].key < childCount)
    && (forall p, q :: 0 <= p < q < |circles| ==> circles[p].key != circles[q].key)
    && (forall p, q :: 0 <= p < q < |circles| ==> circles[p].item.id != circles[q].item.id)
  }

  predicate WellFormed(s: Session)
  {
    ValidConfig(s.config, s.children) && RegistryWellFormed(s.circles, |s.children|)
  }

  /** The `radiusPreset` setter: only the two presets are accepted. */
  function SetRadiusPreset(cfg: Config, newRadiusPreset: int): (r: Result<Config, Error>)
    ensures r.Success? <==> newRadiusPreset == FITS_SMALLEST_CHILD || newRadiusPreset == FITS_LARGEST_CHILD
    ensures r.Success? ==> r.value.radiusPreset == newRadiusPreset && r.value == cfg.(radiusPreset := r.value.radiusPreset)
    ensures r.Failure? ==> r.error == IllegalArgument
  {
    if newRadiusPreset == FITS_LARGEST_CHILD || newRadiusPreset == FITS_SMALLEST_CHILD then
      Success(cfg.(radiusPreset := newRadiusPreset))
    else
      Failure(IllegalArgument)
  }

  /** The `direction` setter: any non-zero input is normalised to a unit of
      the same sign; zero is rejected. */
  function SetDirection(cfg: Config, newDirection: int): (r: Result<Config, Error>)
    ensures r.Success? <==> newDirection != 0
    ensures r.Success? ==>
      && (r.value.direction == COUNTER_CLOCKWISE || r.value.direction == CLOCKWISE)
      && r.value.direction * newDirection > 0
      && r.value == cfg.(direction := r.value.direction)
    ensures r.Failure? ==> r.error == IllegalArgument
  {
    if newDirection > 0 then Success(cfg.(direction := 1))
    else if newDirection < 0 then Success(cfg.(direction := -1))
    else Failure(IllegalArgument)
  }

  /** The `centerView` setter. The argument is the index of the new centre
      view among the children, or `None` to clear it; an index outside the
      children stands for a view that is not a child, which is rejected. */
  function SetCenterView(cfg: Config, children: seq<Child>, newCenterView: Option<int>): (r: Result<Config, Error>)
    ensures r.Failure? <==> newCenterView.Some? && !(0 <= newCenterView.value < |children|)
    ensures r.Failure? ==> r.error == IllegalArgument
    ensures r.Success? ==>
      && (r.value.centerView.Some? <==> newCenterView.Some?)
      && (newCenterView.Some? ==> r.value.centerView.value == newCenterView.value)
      && r.value == cfg.(centerView := r.value.centerView, centerViewId := r.value.centerViewId)
    ensures r.Success? ==>
      ((cfg.radiusPreset == FITS_SMALLEST_CHILD || cfg.radiusPreset == FITS_LARGEST_CHILD)
       && (cfg.direction == COUNTER_CLOCKWISE || cfg.direction == CLOCKWISE)
       ==> ValidConfig(r.value, children))
  {
    match newCenterView
    case None => Success(cfg.(centerView := None, centerViewId := NO_ID))
    case Some(i) =>
      if 0 <= i < |children| then Success(cfg.(centerView := Some(i), centerViewId := children[i].viewId))
      else Failure(IllegalArgument)
  }

  /** The accepted setters keep a valid configuration valid. */
  lemma SettersKeepConfigValid(cfg: Config, children: seq<Child>, preset: int, direction: int)
    requires ValidConfig(cfg, children)
    ensures var r := SetRadiusPreset(cfg, preset); r.Success? ==> ValidConfig(r.value, children)
    ensures var r := SetDirection(cfg, direction); r.Success? ==> ValidConfig(r.value, children)
  {
  }

  /** Whether a circle with this id is registered (`checkExistingCircles`). */
  function CheckExistingCircles(circles: seq<Entry>, id: int): (b: bool)
    ensures b <==> exists p :: 0 <= p < |circles| && circles[p].item.id == id
    decreases |circles|
  {
    if |circles| == 0 then false
    else circles[|circles| - 1].item.id == id || CheckExistingCircles(circles[..|circles| - 1], id)
  }

  /** The position, in iteration order, of the LAST circle with this id. */
  function FindCirclePosition(circles: seq<Entry>, id: int): (r: Option<nat>)
    ensures r.None? <==> !CheckExistingCircles(circles, id)
    ensures r.Some? ==>
      && r.value < |circles|
      && circles[r.value].item.id == id
      && forall q :: r.value < q < |circles| ==> circles[q].item.id != id
    decreases |circles|
  {
    if |circles| == 0 then None
    else if circles[|circles| - 1].item.id == id then Some(|circles| - 1)
    else FindCirclePosition(circles[..|circles| - 1], id)
  }

  /** `findCircleIndexById`: the key of the last circle with this id; with no
      such circle `last()` throws. */
  function FindCircleIndexById(circles: seq<Entry>, id: int): (r: Result<nat, Error>)
    ensures r.Failure? <==> !exists p :: 0 <= p < |circles| && circles[p].item.id == id
    ensures r.Failure? ==> r.error == NoSuchElement(id)
    ensures r.Success? ==>
      exists p :: 0 <= p < |circles| && circles[p].key == r.value && circles[p].item.id == id
        && forall q :: p < q < |circles| ==> circles[q].item.id != id
  {
    match FindCirclePosition(circles, id)
    case None => Failure(NoSuchElement(id))
    case Some(p) => Success(circles[p].key)
  }

  /** The ids of the registered circles. */
  function Ids(circles: seq<Entry>): set<int>
  {
    set p | 0 <= p < |circles| :: circles[p].item.id
  }

  /** The registry after `circles.put` of an entry with a fresh key. A
      `ConcurrentHashMap` iterates by hash bin, and a resize can reorder
      every entry, so the order after the put is the argument `arranged`
      whenever it is a rearrangement of the old entries and `e`; any other
      argument stands for the order in which `e` follows the old entries. */
  function Put(registry: seq<Entry>, e: Entry, arranged: seq<Entry>): (r: seq<Entry>)
    ensures multiset(r) == multiset(registry) + multiset{e}
    ensures multiset(arranged) == multiset(registry) + multiset{e} ==> r == arranged
  {
    if multiset(arranged) == multiset(registry + [e]) then arranged else registry + [e]
  }

  /** Two orders of the same entries register the same ids. */
  lemma RearrangedIds(a: seq<Entry>, b: seq<Entry>)
    requires multiset(a) == multiset(b)
    ensures Ids(a) == Ids(b)
  {
    forall x | x in Ids(a)
      ensures x in Ids(b)
    {
      var p :| 0 <= p < |a| && a[p].item.id == x;
      assert a[p] in multiset(b);
      var q :| 0 <= q < |b| && b[q] == a[p];
    }
    forall x | x in Ids(b)
      ensures x in Ids(a)
    {
      var q :| 0 <= q < |b| && b[q].item.id == x;
      assert b[q] in multiset(a);
      var p :| 0 <= p < |a| && a[p] == b[q];
    }
  }

  /** Appending an entry adds its id to the ids. */
  lemma AppendIds(registry: seq<Entry>, e: Entry)
    ensures Ids(registry + [e]) == Ids(registry) + {e.item.id}
  {
    var r := registry + [e];
    assert r[|registry|] == e;
    forall x | x in Ids(registry)
      ensures x in Ids(r)
    {
      var p :| 0 <= p < |registry| && registry[p].item.id == x;
      assert r[p] == registry[p];
    }
  }

  /** The key of an entry, or the id of its circle. */
  function Field(e: Entry, byKey: bool): int
  {
    if byKey then e.key else e.item.id
  }

  /** No two entries agree on the key (or on the id). */
  predicate DistinctField(circles: seq<Entry>, byKey: bool)
  {
    forall p, q :: 0 <= p < q < |circles| ==> Field(circles[p], byKey) != Field(circles[q], byKey)
  }

  /** With distinct keys (or ids) no entry occurs twice. */
  lemma {:induction false} DistinctFieldOccursOnce(circles: seq<Entry>, byKey: bool)
    requires DistinctField(circles, byKey)
    ensures forall e :: multiset(circles)[e] <= 1
    decreases |circles|
  {
    if |circles| > 0 {
      var front := circles[..|circles| - 1];
      var last := circles[|circles| - 1];
      assert circles == front + [last];
      assert DistinctField(front, byKey) by {
        forall p, q | 0 <= p < q < |front|
          ensures Field(front[p], byKey) != Field(front[q], byKey)
        {
          assert front[p] == circles[p] && front[q] == circles[q];
        }
      }
      DistinctFieldOccursOnce(front, byKey);
      assert last !in front by {
        forall p | 0 <= p < |front|
          ensures front[p] != last
        {
          assert front[p] == circles[p];
        }
      }
    }
  }

  /** An entry at two positions occurs at least twice. */
  lemma RepeatedOccursTwice(circles: seq<Entry>, p: nat, q: nat)
    requires p < q < |circles| && circles[p] == circles[q]
    ensures multiset(circles)[circles[p]] >= 2
  {
    assert circles == circles[..q] + [circles[q]] + circles[q + 1..];
    assert circles[..q][p] == circles[p];
  }

  /** Two different entries of a rearrangement come from two positions of
      the original, so they differ in the key (or the id). */
  lemma DifferentEntriesDiffer(a: seq<Entry>, b: seq<Entry>, byKey: bool, p: nat, q: nat)
    requires multiset(a) == multiset(b) && DistinctField(b, byKey)
    requires p < q < |a| && a[p] != a[q]
    ensures Field(a[p], byKey) != Field(a[q], byKey)
  {
    assert a[p] in multiset(b) && a[q] in multiset(b);
    var i :| 0 <= i < |b| && b[i] == a[p];
    var j :| 0 <= j < |b| && b[j] == a[q];
    assert i < j || j < i;
  }

  /** Rearranging the entries keeps the keys (or the ids) distinct. */
  lemma RearrangedKeepsDistinct(a: seq<Entry>, b: seq<Entry>, byKey: bool)
    requires multiset(a) == multiset(b) && DistinctField(b, byKey)
    ensures DistinctField(a, byKey)
  {
    DistinctFieldOccursOnce(b, byKey);
    forall p, q | 0 <= p < q < |a|
      ensures Field(a[p], byKey) != Field(a[q], byKey)
    {
      if a[p] == a[q] {
        RepeatedOccursTwice(a, p, q);
      } else {
        DifferentEntriesDiffer(a, b, byKey, p, q);
      }
    }
  }

  /** Rearranging a well-formed registry keeps it well formed. */
  lemma RearrangedKeepsRegistryWellFormed(a: seq<Entry>, b: seq<Entry>, childCount: nat)
    requires multiset(a) == multiset(b)
    ensures RegistryWellFormed(b, childCount) ==> RegistryWellFormed(a, childCount)
  {
    if RegistryWellFormed(b, childCount) {
      assert DistinctField(b, true) && DistinctField(b, false);
      RearrangedKeepsDistinct(a, b, true);
      RearrangedKeepsDistinct(a, b, false);
      forall p | 0 <= p < |a|
        ensures a[p].key < childCount
      {
        assert a[p] in multiset(b);
        var i :| 0 <= i < |b| && b[i] == a[p];
      }
      assert forall p, q :: 0 <= p < q < |a| ==> Field(a[p], true) != Field(a[q], true);
      assert forall p, q :: 0 <= p < q < |a| ==> Field(a[p], false) != Field(a[q], false);
    }
  }

  /** Appending an entry under a key and with an id the registry lacks keeps
      it well formed for one more child. */
  lemma AppendKeepsRegistryWellFormed(registry: seq<Entry>, e: Entry, childCount: nat)
    requires e.key == childCount
    ensures RegistryWellFormed(registry, childCount) && e.item.id !in Ids(registry) ==>
      RegistryWellFormed(registry + [e], childCount + 1)
  {
    if RegistryWellFormed(registry, childCount) && e.item.id !in Ids(registry) {
      var r := registry + [e];
      forall p | 0 <= p < |registry|
        ensures r[p] == registry[p] && r[p].key < childCount && r[p].item.id != e.item.id
      {
        assert registry[p].item.id in Ids(registry);
      }
    }
  }

  /** `addCircle`: a circle whose id is already registered is ignored;
      otherwise the freshly inflated view is appended as a child and the
      circle is put into the registry under that child's index, the map
      choosing the iteration order (`arranged`, see `Put`). */
  function AddCircle(s: Session, item: CircleItems.CircleItem, inflated: Child, arranged: seq<Entry>): (r: Session)
    ensures CheckExistingCircles(s.circles, item.id) ==> r == s
    ensures !CheckExistingCircles(s.circles, item.id) ==>
      && r == s.(children := r.children, circles := r.circles)
      && r.children == s.children + [inflated]
      && multiset(r.circles) == multiset(s.circles) + multiset{Entry(|s.children|, item)}
      && (multiset(arranged) == multiset(r.circles) ==> r.circles == arranged)
    ensures Ids(r.circles) == Ids(s.circles) + {item.id}
    ensures s.children <= r.children && |r.children| - |s.children| == |r.circles| - |s.circles| <= 1
    ensures WellFormed(s) ==> WellFormed(r)
  {
    if CheckExistingCircles(s.circles, item.id) then s
    else
      var e := Entry(|s.children|, item);
      var circles := Put(s.circles, e, arranged);
      AppendIds(s.circles, e);
      RearrangedIds(circles, s.circles + [e]);
      AppendKeepsRegistryWellFormed(s.circles, e, |s.children|);
      RearrangedKeepsRegistryWellFormed(circles, s.circles + [e], |s.children| + 1);
      s.(children := s.children + [inflated], circles := circles)
  }

  /** The ids of a list of circles. */
  function ItemIds(items: seq<CircleItems.CircleItem>): set<int>
  {
    set k | 0 <= k < |items| :: items[k].id
  }

  /** The first circle of the list that carries `id`. */
  function FirstWithId(items: seq<CircleItems.CircleItem>, id: int): (r: Option<CircleItems.CircleItem>)
    ensures r.None? <==> forall k :: 0 <= k < |items| ==> items[k].id != id
    ensures r.Some? ==> r.value.id == id
    ensures r.Some? ==>
      exists k :: 0 <= k < |items| && items[k] == r.value && forall j :: 0 <= j < k ==> items[j].id != id
  {
    if |items| == 0 then None
    else if items[0].id == id then Some(items[0])
    else
      var r := FirstWithId(items[1..], id);
      assert forall k :: 0 < k < |items| ==> items[k] == items[1..][k - 1];
      r
  }

  /** The entries `setCircles` registers, in the order of the list: the
      circles whose ids are outside `known` and not seen earlier in the list,
      under consecutive keys from `next`. */
  function NewEntries(known: set<int>, items: seq<CircleItems.CircleItem>, next: nat): seq<Entry>
    decreases |items|
  {
    if |items| == 0 then []
    else if items[0].id in known then NewEntries(known, items[1..], next)
    else [Entry(next, items[0])] + NewEntries(known + {items[0].id}, items[1..], next + 1)
  }

  /** `r` holds, under consecutive keys from `next`, the first circle of
      `items` for each of their ids outside `known`, each id once. */
  predicate FirstOfEachNewId(known: set<int>, items: seq<CircleItems.CircleItem>, next: nat, r: seq<Entry>)
  {
    && (forall k :: 0 <= k < |r| ==> r[k].key == next + k)
    && (forall e :: e in r ==> e.item.id !in known && FirstWithId(items, e.item.id) == Some(e.item))
    && DistinctField(r, false)
    && Ids(r) == ItemIds(items) - known
  }

  /** What `NewEntries` collects: the first circle of each new id, once. */
  lemma NewEntriesMeans(known: set<int>, items: seq<CircleItems.CircleItem>, next: nat)
    ensures FirstOfEachNewId(known, items, next, NewEntries(known, items, next))
  {
    NewEntriesKeys(known, items, next);
    NewEntriesAvoidKnown(known, items, next);
    NewEntriesFirst(known, items, next);
    NewEntriesDistinct(known, items, next);
    NewEntriesIds(known, items, next);
  }

  /** The collected entries take consecutive keys from `next`. */
  lemma {:induction false} NewEntriesKeys(known: set<int>, items: seq<CircleItems.CircleItem>, next: nat)
    ensures forall k :: 0 <= k < |NewEntries(known, items, next)| ==> NewEntries(known, items, next)[k].key == next + k
    decreases |items|
  {
    if |items| > 0 {
      if items[0].id in known {
        NewEntriesKeys(known, items[1..], next);
      } else {
        var rest := NewEntries(known + {items[0].id}, items[1..], next + 1);
        NewEntriesKeys(known + {items[0].id}, items[1..], next + 1);
        assert forall k :: 0 < k < |rest| + 1 ==> ([Entry(next, items[0])] + rest)[k] == rest[k - 1];
      }
    }
  }

  /** No collected circle has a known id. */
  lemma {:induction false} NewEntriesAvoidKnown(known: set<int>, items: seq<CircleItems.CircleItem>, next: nat)
    ensures forall e :: e in NewEntries(known, items, next) ==> e.item.id !in known
    decreases |items|
  {
    if |items| > 0 {
      if items[0].id in known {
        NewEntriesAvoidKnown(known, items[1..], next);
      } else {
        NewEntriesAvoidKnown(known + {items[0].id}, items[1..], next + 1);
      }
    }
  }

  /** Every collected circle is the first of the list with its id. */
  lemma {:induction false} NewEntriesFirst(known: set<int>, items: seq<CircleItems.CircleItem>, next: nat)
    ensures forall e :: e in NewEntries(known, items, next) ==> FirstWithId(items, e.item.id) == Some(e.item)
    decreases |items|
  {
    if |items| > 0 {
      if items[0].id in known {
        var rest := NewEntries(known, items[1..], next);
        NewEntriesFirst(known, items[1..], next);
        NewEntriesAvoidKnown(known, items[1..], next);
        forall e | e in rest
          ensures FirstWithId(items, e.item.id) == Some(e.item)
        {
          assert e.item.id != items[0].id;
        }
      } else {
        var rest := NewEntries(known + {items[0].id}, items[1..], next + 1);
        NewEntriesFirst(known + {items[0].id}, items[1..], next + 1);
        NewEntriesAvoidKnown(known + {items[0].id}, items[1..], next + 1);
        forall e | e in [Entry(next, items[0])] + rest
          ensures FirstWithId(items, e.item.id) == Some(e.item)
        {
          if e in rest { assert e.item.id != items[0].id; }
        }
      }
    }
  }

  /** No two collected circles share an id. */
  lemma {:induction false} NewEntriesDistinct(known: set<int>, items: seq<CircleItems.CircleItem>, next: nat)
    ensures DistinctField(NewEntries(known, items, next), false)
    decreases |items|
  {
    if |items| > 0 {
      if items[0].id in known {
        NewEntriesDistinct(known, items[1..], next);
      } else {
        var rest := NewEntries(known + {items[0].id}, items[1..], next + 1);
        NewEntriesDistinct(known + {items[0].id}, items[1..], next + 1);
        NewEntriesAvoidKnown(known + {items[0].id}, items[1..], next + 1);
        var r := [Entry(next, items[0])] + rest;
        forall j, k | 0 <= j < k < |r|
          ensures Field(r[j], false) != Field(r[k], false)
        {
          assert r[k] == rest[k - 1];
          if j == 0 { assert rest[k - 1] in rest; } else { assert r[j] == rest[j - 1]; }
        }
      }
    }
  }

  /** The collected ids are the list's ids outside `known`. */
  lemma {:induction false} NewEntriesIds(known: set<int>, items: seq<CircleItems.CircleItem>, next: nat)
    ensures Ids(NewEntries(known, items, next)) == ItemIds(items) - known
    decreases |items|
  {
    if |items| > 0 {
      ItemIdsSplit(items);
      if items[0].id in known {
        NewEntriesIds(known, items[1..], next);
      } else {
        NewEntriesIds(known + {items[0].id}, items[1..], next + 1);
        AppendFrontIds(Entry(next, items[0]), NewEntries(known + {items[0].id}, items[1..], next + 1));
      }
    } else {
      assert ItemIds(items) == {};
    }
  }

  /** Putting an entry in front adds its id to the ids. */
  lemma AppendFrontIds(e: Entry, rest: seq<Entry>)
    ensures Ids([e] + rest) == {e.item.id} + Ids(rest)
  {
    var r := [e] + rest;
    assert r[0] == e;
    forall x | x in Ids(r)
      ensures x in {e.item.id} + Ids(rest)
    {
      var p :| 0 <= p < |r| && r[p].item.id == x;
      if p > 0 { assert r[p] == rest[p - 1]; }
    }
    forall x | x in Ids(rest)
      ensures x in Ids(r)
    {
      var p :| 0 <= p < |rest| && rest[p].item.id == x;
      assert r[p + 1] == rest[p];
    }
  }

  /** `setCircles`: `addCircle` for each circle in order; `placement` gives
      the map's iteration order after each put, from the registry and the
      new entry. */
  function SetCircles(s: Session, items: seq<CircleItems.CircleItem>, inflated: Child,
                      placement: (seq<Entry>, Entry) -> seq<Entry>): (r: Session)
    ensures s.children <= r.children && |r.children| - |s.children| == |r.circles| - |s.circles|
    ensures Ids(r.circles) == Ids(s.circles) + ItemIds(items)
    ensures WellFormed(s) ==> WellFormed(r)
    decreases |items|
  {
    if |items| == 0 then s
    else
      ItemIdsSplit(items);
      var e := Entry(|s.children|, items[0]);
      var next := AddCircle(s, items[0], inflated, placement(s.circles, e));
      SetCircles(next, items[1..], inflated, placement)
  }

  /** One step of `NewEntries`: the first circle is skipped when its id is
      known and registered under `next` otherwise. */
  lemma NewEntriesStep(known: set<int>, items: seq<CircleItems.CircleItem>, next: nat)
    requires |items| > 0
    ensures items[0].id in known ==> NewEntries(known, items, next) == NewEntries(known, items[1..], next)
    ensures items[0].id !in known ==>
      multiset(NewEntries(known, items, next))
        == multiset{Entry(next, items[0])} + multiset(NewEntries(known + {items[0].id}, items[1..], next + 1))
  {
    if items[0].id !in known {
      var rest := NewEntries(known + {items[0].id}, items[1..], next + 1);
      assert NewEntries(known, items, next) == [Entry(next, items[0])] + rest;
    }
  }

  /** `setCircles` registers exactly the first circle of each id not yet
      registered, each under the index of the child inflated for it. */
  lemma {:induction false} SetCirclesRegistersNewEntries(s: Session, items: seq<CircleItems.CircleItem>, inflated: Child,
                                                         placement: (seq<Entry>, Entry) -> seq<Entry>)
    ensures var r := SetCircles(s, items, inflated, placement);
      multiset(r.circles) == multiset(s.circles) + multiset(NewEntries(Ids(s.circles), items, |s.children|))
    decreases |items|
  {
    if |items| > 0 {
      var e := Entry(|s.children|, items[0]);
      var next := AddCircle(s, items[0], inflated, placement(s.circles, e));
      var known := Ids(s.circles);
      var r := SetCircles(next, items[1..], inflated, placement);
      assert SetCircles(s, items, inflated, placement) == r;
      SetCirclesRegistersNewEntries(next, items[1..], inflated, placement);
      NewEntriesStep(known, items, |s.children|);
      if items[0].id in known {
        assert CheckExistingCircles(s.circles, items[0].id);
        assert next == s;
      } else {
        assert !CheckExistingCircles(s.circles, items[0].id);
        var rest := NewEntries(known + {items[0].id}, items[1..], |s.children| + 1);
        assert Ids(next.circles) == known + {items[0].id} && |next.children| == |s.children| + 1;
        assert multiset(r.circles) == multiset(next.circles) + multiset(rest);
        assert multiset(next.circles) == multiset(s.circles) + multiset{e};
      }
    }
  }

  /** `setCircles` inflates one child per registered entry, so the new
      entries' keys are exactly the new children's indices. */
  lemma SetCirclesChildPerEntry(s: Session, items: seq<CircleItems.CircleItem>, inflated: Child,
                                placement: (seq<Entry>, Entry) -> seq<Entry>)
    ensures var r := SetCircles(s, items, inflated, placement);
      |r.children| == |s.children| + |NewEntries(Ids(s.circles), items, |s.children|)|
  {
    var r := SetCircles(s, items, inflated, placement);
    SetCirclesRegistersNewEntries(s, items, inflated, placement);
    assert |multiset(r.circles)| == |multiset(s.circles)| + |multiset(NewEntries(Ids(s.circles), items, |s.children|))|;
  }

  /** Every child `setCircles` adds is a freshly inflated view. */
  lemma {:induction false} SetCirclesAddsInflated(s: Session, items: seq<CircleItems.CircleItem>, inflated: Child,
                                                  placement: (seq<Entry>, Entry) -> seq<Entry>)
    ensures forall i :: |s.children| <= i < |SetCircles(s, items, inflated, placement).children| ==>
      SetCircles(s, items, inflated, placement).children[i] == inflated
    decreases |items|
  {
    if |items| > 0 {
      var next := AddCircle(s, items[0], inflated, placement(s.circles, Entry(|s.children|, items[0])));
      SetCirclesAddsInflated(next, items[1..], inflated, placement);
      var r := SetCircles(next, items[1..], inflated, placement);
      forall i | |s.children| <= i < |next.children|
        ensures r.children[i] == inflated
      {
        assert next.children == s.children + [inflated];
      }
    }
  }

  /** The ids of a non-empty list: the first one's and the rest's. */
  lemma ItemIdsSplit(items: seq<CircleItems.CircleItem>)
    requires |items| > 0
    ensures ItemIds(items) == {items[0].id} + ItemIds(items[1..])
  {
    forall x | x in ItemIds(items)
      ensures x in {items[0].id} + ItemIds(items[1..])
    {
      var k :| 0 <= k < |items| && items[k].id == x;
      if k > 0 { assert items[1..][k - 1] == items[k]; }
    }
    forall x | x in ItemIds(items[1..])
      ensures x in ItemIds(items)
    {
      var k :| 0 <= k < |items[1..]| && items[1..][k].id == x;
      assert items[k + 1] == items[1..][k];
    }
  }

  /** With unique ids, the registry holds one circle per distinct id. */
  lemma {:induction false} UniqueIdsCount(circles: seq<Entry>)
    requires forall p, q :: 0 <= p < q < |circles| ==> circles[p].item.id != circles[q].item.id
    ensures |Ids(circles)| == |circles|
    decreases |circles|
  {
    if |circles| > 0 {
      var front := circles[..|circles| - 1];
      UniqueIdsCount(front);
      var last := circles[|circles| - 1].item.id;
      assert Ids(circles) == Ids(front) + {last} by {
        forall x | x in Ids(circles)
          ensures x in Ids(front) + {last}
        {
          var p :| 0 <= p < |circles| && circles[p].item.id == x;
          if p < |front| { assert front[p] == circles[p]; }
        }
        forall x | x in Ids(front)
          ensures x in Ids(circles)
        {
          var p :| 0 <= p < |front| && front[p].item.id == x;
          assert circles[p] == front[p];
        }
      }
      forall p | 0 <= p < |front|
        ensures front[p].item.id != last
      {
        assert circles[p] == front[p];
      }
      assert last !in Ids(front);
    }
  }

  /** Bulk adding never duplicates a circle: the registry ends with exactly
      one circle per distinct id among the old circles and the new ones. */
  lemma SetCirclesCountsDistinctIds(s: Session, items: seq<CircleItems.CircleItem>, inflated: Child,
                                    placement: (seq<Entry>, Entry) -> seq<Entry>)
    requires WellFormed(s)
    ensures var r := SetCircles(s, items, inflated, placement);
      |r.circles| == |Ids(s.circles) + ItemIds(items)|
  {
    var r := SetCircles(s, items, inflated, placement);
    UniqueIdsCount(r.circles);
  }
}
