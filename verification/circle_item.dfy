/** One node of the relation graph: its id, its active flag, the public
    ordered list of related ids and the stored path per related id. */
module CircleItems {
  import RelationPaths

  /** A circle. `relationsToCircles` is public: hosts may append to it
      directly, without a stored path. `relationsWithPath` is the private
      map from a related id to the path stored for it. */
  datatype CircleItem = CircleItem(
    id: int,
    active: bool,
    relationsToCircles: seq<int>,
    relationsWithPath: map<int, RelationPaths.RelationPath>)

  /** A freshly constructed circle: inactive, no relations. */
  function NewCircleItem(id: int): CircleItem
  {
    CircleItem(id, false, [], map[])
  }

  /** A fresh circle reports no relation, and its combined path, over the
      only enumeration of its empty map, is empty. */
  lemma NewCircleItemIsBare(id: int, otherId: int, order: seq<int>)
    ensures !HasRelationFor(NewCircleItem(id), otherId)
    ensures !NewCircleItem(id).active && KeysListed(NewCircleItem(id))
    ensures EnumeratesRelations(NewCircleItem(id), order) <==> order == []
    ensures BuildPath(NewCircleItem(id), []) == []
  {
    if order != [] {
      assert order[0] !in NewCircleItem(id).relationsWithPath;
    }
  }

  /** Whether a path is stored for `otherId`; the circle's own id and an
      empty map both answer false before the map is consulted. */
  predicate HasRelationFor(c: CircleItem, otherId: int)
  {
    if otherId == c.id || |c.relationsWithPath| == 0 then false
    else otherId in c.relationsWithPath
  }

  /** A circle never reports a relation to itself, whatever was added. */
  lemma NoRelationForSelf(c: CircleItem)
    ensures !HasRelationFor(c, c.id)
  {
  }

  /** For any other id, a relation is reported exactly when a path is stored. */
  lemma HasRelationForIffStored(c: CircleItem, otherId: int)
    requires otherId != c.id
    ensures HasRelationFor(c, otherId) <==> otherId in c.relationsWithPath
    ensures c.relationsWithPath == map[] ==> !HasRelationFor(c, otherId)
  {
  }

  /** Records a relation unless one is already reported for `otherId`:
      appends the id to the list and stores the path under it. The guard is
      `HasRelationFor`, so the circle's own id is never blocked. */
  function AddRelation(c: CircleItem, otherId: int, path: RelationPaths.RelationPath): (r: CircleItem)
    ensures r.id == c.id && r.active == c.active
    ensures otherId in r.relationsWithPath
    ensures c.relationsWithPath.Keys <= r.relationsWithPath.Keys
    ensures forall y :: y in c.relationsWithPath && y != otherId ==>
      r.relationsWithPath[y] == c.relationsWithPath[y]
    ensures otherId != c.id && otherId in c.relationsWithPath ==> r == c
    ensures otherId == c.id || otherId !in c.relationsWithPath ==>
      && r.relationsToCircles == c.relationsToCircles + [otherId]
      && r.relationsWithPath[otherId] == path
      && r.relationsWithPath.Keys == c.relationsWithPath.Keys + {otherId}
  {
    if HasRelationFor(c, otherId) then c
    else c.(relationsToCircles := c.relationsToCircles + [otherId],
            relationsWithPath := c.relationsWithPath[otherId := path])
  }

  /** For another circle's id, a second `AddRelation` changes nothing: one
      stored path (the first), one list entry added at most. */
  lemma AddRelationIdempotent(c: CircleItem, otherId: int, p: RelationPaths.RelationPath, q: RelationPaths.RelationPath)
    requires otherId != c.id
    ensures var once := AddRelation(c, otherId, p);
      && AddRelation(once, otherId, q) == once
      && once.relationsWithPath[otherId] == (if otherId in c.relationsWithPath then c.relationsWithPath[otherId] else p)
      && multiset(once.relationsToCircles)[otherId]
         == multiset(c.relationsToCircles)[otherId] + (if otherId in c.relationsWithPath then 0 else 1)
  {
  }

  /** The circle's own id is not guarded: every call appends it again and the
      last path wins. */
  lemma SelfRelationIsUnguarded(c: CircleItem, p: RelationPaths.RelationPath, q: RelationPaths.RelationPath)
    ensures var twice := AddRelation(AddRelation(c, c.id, p), c.id, q);
      && twice.relationsToCircles == c.relationsToCircles + [c.id, c.id]
      && twice.relationsWithPath[c.id] == q
  {
  }

  /** An id listed without a stored path is appended a second time when its
      path is first added, so the list can hold duplicates. */
  lemma ListedIdIsAppendedAgain(p: RelationPaths.RelationPath)
    ensures AddRelation(CircleItem(0, false, [5], map[]), 5, p).relationsToCircles == [5, 5]
  {
  }

  /** Every id with a stored path is also listed. */
  predicate KeysListed(c: CircleItem)
  {
    forall x :: x in c.relationsWithPath ==> x in c.relationsToCircles
  }

  /** `AddRelation` keeps every stored id listed. */
  lemma AddRelationKeepsKeysListed(c: CircleItem, otherId: int, path: RelationPaths.RelationPath)
    requires KeysListed(c)
    ensures KeysListed(AddRelation(c, otherId, path))
  {
  }

  /** `after` grew from `before` by appending to the list exactly the ids
      whose paths it newly stores, each once, and keeping every stored id. */
  predicate AppendsExactlyStored(before: CircleItem, after: CircleItem)
  {
    var n := |before.relationsToCircles|;
    && before.relationsToCircles <= after.relationsToCircles
    && before.relationsWithPath.Keys <= after.relationsWithPath.Keys
    && (forall k :: n <= k < |after.relationsToCircles| ==>
          after.relationsToCircles[k] in after.relationsWithPath
          && after.relationsToCircles[k] !in before.relationsWithPath)
    && (forall j, k :: n <= j < k < |after.relationsToCircles| ==>
          after.relationsToCircles[j] != after.relationsToCircles[k])
    && (forall x :: x in after.relationsWithPath && x !in before.relationsWithPath ==>
          x in after.relationsToCircles[n..])
  }

  /** `addRelation` with another circle's id appends exactly what it stores. */
  lemma AddRelationAppendsExactlyStored(c: CircleItem, otherId: int, path: RelationPaths.RelationPath)
    requires otherId != c.id
    ensures AppendsExactlyStored(c, AddRelation(c, otherId, path))
  {
    var r := AddRelation(c, otherId, path);
    if otherId !in c.relationsWithPath {
      assert r.relationsToCircles[|c.relationsToCircles|..] == [otherId];
    }
  }

  /** Appending exactly what is stored composes over two steps. */
  lemma AppendsExactlyStoredTrans(a: CircleItem, b: CircleItem, c: CircleItem)
    requires AppendsExactlyStored(a, b) && AppendsExactlyStored(b, c)
    ensures AppendsExactlyStored(a, c)
  {
    var la, lb, lc := a.relationsToCircles, b.relationsToCircles, c.relationsToCircles;
    forall k | |la| <= k < |lc|
      ensures lc[k] in c.relationsWithPath && lc[k] !in a.relationsWithPath
    {
      if k < |lb| { assert lc[k] == lb[k]; }
    }
    forall j, k | |la| <= j < k < |lc|
      ensures lc[j] != lc[k]
    {
      if j < |lb| {
        assert lc[j] == lb[j];
        if k < |lb| { assert lc[k] == lb[k]; }
      }
    }
    forall x | x in c.relationsWithPath && x !in a.relationsWithPath
      ensures x in lc[|la|..]
    {
      if x in b.relationsWithPath {
        var i :| 0 <= i < |lb[|la|..]| && lb[|la|..][i] == x;
        assert lc[|la|..][i] == x;
      } else {
        var i :| 0 <= i < |lc[|lb|..]| && lc[|lb|..][i] == x;
        assert lc[|la|..][i + |lb| - |la|] == x;
      }
    }
  }

  /** The list grows by as many entries as there are newly stored ids. */
  lemma AppendedCountsNewKeys(before: CircleItem, after: CircleItem)
    requires AppendsExactlyStored(before, after)
    ensures |after.relationsToCircles| - |before.relationsToCircles|
         == |after.relationsWithPath.Keys - before.relationsWithPath.Keys|
  {
    var added := after.relationsToCircles[|before.relationsToCircles|..];
    AppendedAreDistinct(before, after);
    DistinctLength(added);
    AppendedAreStored(before, after);
  }

  /** The appended entries are pairwise distinct. */
  lemma AppendedAreDistinct(before: CircleItem, after: CircleItem)
    requires AppendsExactlyStored(before, after)
    ensures var added := after.relationsToCircles[|before.relationsToCircles|..];
      forall i, j :: 0 <= i < j < |added| ==> added[i] != added[j]
  {
    var n := |before.relationsToCircles|;
    var added := after.relationsToCircles[n..];
    forall i, j | 0 <= i < j < |added|
      ensures added[i] != added[j]
    {
      assert added[i] == after.relationsToCircles[n + i] && added[j] == after.relationsToCircles[n + j];
    }
  }

  /** The appended entries are exactly the newly stored ids. */
  lemma AppendedAreStored(before: CircleItem, after: CircleItem)
    requires AppendsExactlyStored(before, after)
    ensures (set x | x in after.relationsToCircles[|before.relationsToCircles|..])
         == after.relationsWithPath.Keys - before.relationsWithPath.Keys
  {
    var n := |before.relationsToCircles|;
    var added := after.relationsToCircles[n..];
    forall x | x in added
      ensures x in after.relationsWithPath.Keys - before.relationsWithPath.Keys
    {
      var i :| 0 <= i < |added| && added[i] == x;
      assert added[i] == after.relationsToCircles[n + i];
    }
    var listed := set x | x in added;
    var stored := after.relationsWithPath.Keys - before.relationsWithPath.Keys;
    forall x | x in stored
      ensures x in listed
    {
      assert x in after.relationsWithPath && x !in before.relationsWithPath;
      assert x in added;
    }
    assert listed == stored;
  }

  /** A host appending to the public list directly, as the demo activity does. */
  function ListRelation(c: CircleItem, otherId: int): CircleItem
  {
    c.(relationsToCircles := c.relationsToCircles + [otherId])
  }

  /** Listing an id directly stores no path for it: the list may name ids the
      map does not hold. */
  lemma ListedIdHasNoPath(c: CircleItem, otherId: int)
    requires otherId !in c.relationsWithPath
    ensures var r := ListRelation(c, otherId);
      otherId in r.relationsToCircles && !HasRelationFor(r, otherId) && KeysListed(c) == KeysListed(r)
  {
  }

  /** Which of the two `buildPath` overloads produces each sub-path. */
  datatype Multiplier = Unscaled | ScaledBy(m: int)

  /** The sub-path one stored relation contributes. */
  function SubPath(rp: RelationPaths.RelationPath, mult: Multiplier): RelationPaths.Path
  {
    match mult
    case Unscaled => RelationPaths.BuildPath(rp)
    case ScaledBy(m) => RelationPaths.BuildPathScaled(rp, m)
  }

  /** `order` lists every stored relation's key exactly once: the iteration
      order of the map. */
  predicate EnumeratesRelations(c: CircleItem, order: seq<int>)
  {
    && (forall i, j :: 0 <= i < j < |order| ==> order[i] != order[j])
    && (forall k :: 0 <= k < |order| ==> order[k] in c.relationsWithPath)
    && (forall x :: x in c.relationsWithPath ==> x in order)
  }

  /** The sub-paths of the relations keyed by `order`, appended in that order. */
  function JoinSubPaths(c: CircleItem, order: seq<int>, mult: Multiplier): (p: RelationPaths.Path)
    requires forall k :: 0 <= k < |order| ==> order[k] in c.relationsWithPath
    ensures |p| == 2 * |order|
    ensures forall k :: 0 <= k < |order| ==> p[2 * k..2 * k + 2] == SubPath(c.relationsWithPath[order[k]], mult)
    decreases |order|
  {
    if |order| == 0 then []
    else
      var front := JoinSubPaths(c, order[..|order| - 1], mult);
      var last := SubPath(c.relationsWithPath[order[|order| - 1]], mult);
      assert forall k :: 0 <= k < |order| - 1 ==> (front + last)[2 * k..2 * k + 2] == front[2 * k..2 * k + 2];
      front + last
  }

  /** The circle's combined path: every stored relation's two-command curve,
      in the map's iteration order. */
  function BuildPath(c: CircleItem, order: seq<int>): (p: RelationPaths.Path)
    requires EnumeratesRelations(c, order)
    ensures |p| == 2 * |order|
    ensures c.relationsWithPath == map[] ==> p == []
    ensures forall k :: 0 <= k < |order| ==>
      p[2 * k..2 * k + 2] == RelationPaths.BuildPath(c.relationsWithPath[order[k]])
  {
    assert |order| > 0 ==> order[0] in c.relationsWithPath;
    JoinSubPaths(c, order, Unscaled)
  }

  /** The same combination with every endpoint scaled by `multiplier`. */
  function BuildPathScaled(c: CircleItem, order: seq<int>, multiplier: int): (p: RelationPaths.Path)
    requires EnumeratesRelations(c, order)
    ensures |p| == 2 * |order|
    ensures c.relationsWithPath == map[] ==> p == []
    ensures forall k :: 0 <= k < |order| ==>
      p[2 * k..2 * k + 2] == RelationPaths.BuildPathScaled(c.relationsWithPath[order[k]], multiplier)
  {
    assert |order| > 0 ==> order[0] in c.relationsWithPath;
    JoinSubPaths(c, order, ScaledBy(multiplier))
  }

  /** Joining with multiplier 1 is joining the plain curves. */
  lemma {:induction false} JoinScaledByOne(c: CircleItem, order: seq<int>)
    requires forall k :: 0 <= k < |order| ==> order[k] in c.relationsWithPath
    ensures JoinSubPaths(c, order, ScaledBy(1)) == JoinSubPaths(c, order, Unscaled)
    decreases |order|
  {
    if |order| > 0 {
      JoinScaledByOne(c, order[..|order| - 1]);
      RelationPaths.ScaledByOneIsPlain(c.relationsWithPath[order[|order| - 1]]);
    }
  }

  /** The scaled overload with multiplier 1 draws exactly the plain path. */
  lemma BuildPathScaledByOne(c: CircleItem, order: seq<int>)
    requires EnumeratesRelations(c, order)
    ensures BuildPathScaled(c, order, 1) == BuildPath(c, order)
  {
    JoinScaledByOne(c, order);
  }

  /** A list without repeats has as many entries as distinct members. */
  lemma {:induction false} DistinctLength(order: seq<int>)
    requires forall i, j :: 0 <= i < j < |order| ==> order[i] != order[j]
    ensures |set x | x in order| == |order|
    decreases |order|
  {
    if |order| > 0 {
      var front := order[..|order| - 1];
      DistinctLength(front);
      assert (set x | x in order) == (set x | x in front) + {order[|order| - 1]};
      assert order[|order| - 1] !in (set x | x in front);
    }
  }

  /** The combined path holds two commands per stored relation. */
  lemma PathLengthCountsRelations(c: CircleItem, order: seq<int>)
    requires EnumeratesRelations(c, order)
    ensures |BuildPath(c, order)| == 2 * |c.relationsWithPath|
  {
    DistinctLength(order);
    forall x | x in order
      ensures x in c.relationsWithPath
    {
      var k :| 0 <= k < |order| && order[k] == x;
    }
    var listed := set x | x in order;
    assert forall x :: x in listed <==> x in c.relationsWithPath.Keys;
    assert listed == c.relationsWithPath.Keys;
  }
}
