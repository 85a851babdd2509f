/**
 The "brush entity with child entities" problem check and its fix
 (`Sledge.Editor.Problems.SolidEntityWithEntityChildren`).

 A brush entity (an entity whose game data says it is a solid class) may only
 contain groups and solids. The check reports each brush entity attached to the
 world that has anything else below it; the fix builds, without performing it, a
 reparent action that lifts every entity below the offender up to the offender's
 own parent.
 */
module Problems {
  import opened Wrappers
  import opened Ids
  import opened MapObjects
  import opened Documents
  import opened Operations

  const Title: string := "Brush entity has child entities"
  const Description: string :=
    "A brush entity with child entities was found. A brush entity must only have solid contents. "
    + "Fixing the problem will move the child entities outside of the entity's group."

  /** A detected violation: the objects at fault and the text shown for it. */
  datatype Problem = Problem(objects: seq<int>, title: string, description: string)

  predicate IsEntity(o: MapObject) {
    o.kind == Entity
  }

  /** Neither a group nor a solid: content a brush entity must not hold. */
  predicate IsForeignContent(o: MapObject) {
    o.kind != Group && o.kind != ObjectKind.Solid
  }

  /** Some object below `x` is neither a group nor a solid. */
  ghost predicate HasForeignContent(t: MapTree, x: int) {
    exists y :: y in t.objects && IsDescendant(t, y, x) && IsForeignContent(t.objects[y])
  }

  /**
   The condition the check reports: `x` is an entity attached to the world, it has
   game data, that game data is of the solid class, and something below it is
   neither a group nor a solid.
   */
  ghost predicate Offends(t: MapTree, x: int) {
    && x in t.objects
    && InSubtree(t, x, t.worldSpawn)
    && t.objects[x].kind == Entity
    && t.objects[x].gameData.Some?
    && t.objects[x].gameData.value == ClassType.Solid
    && HasForeignContent(t, x)
  }

  /** The `Any` test of the check: the search below `x` finds foreign content exactly when some exists. */
  lemma AnyForeignContent(t: MapTree, x: int)
    ensures |FindBelow(t, x, IsForeignContent)| > 0 <==> HasForeignContent(t, x)
  {
    var found := FindBelow(t, x, IsForeignContent);
    if |found| > 0 {
      assert found[0] in found;
    }
    if HasForeignContent(t, x) {
      var y :| y in t.objects && IsDescendant(t, y, x) && IsForeignContent(t.objects[y]);
      assert y in found;
    }
  }

  /** The first step of the check's query: every entity of the world. */
  function WorldEntities(t: MapTree): (r: seq<int>)
    ensures StrictlyIncreasing(r)
    ensures forall x :: x in r <==> x in t.objects && InSubtree(t, x, t.worldSpawn) && t.objects[x].kind == Entity
  {
    Find(t, t.worldSpawn, IsEntity)
  }

  /** The second step: the entities of the world that have game data. */
  function EntitiesWithGameData(t: MapTree): (r: seq<int>)
    ensures StrictlyIncreasing(r)
    ensures forall x :: x in r <==>
      x in t.objects && InSubtree(t, x, t.worldSpawn) && t.objects[x].kind == Entity && t.objects[x].gameData.Some?
  {
    FilterIds(WorldEntities(t), x => x in t.objects && t.objects[x].gameData.Some?)
  }

  /** The third step: of those, the ones whose class is solid. */
  function BrushEntities(t: MapTree): (r: seq<int>)
    ensures StrictlyIncreasing(r)
    ensures forall x :: x in r <==> IsBrushEntity(t, x)
  {
    FilterIds(EntitiesWithGameData(t), x => x in t.objects && t.objects[x].gameData == Some(ClassType.Solid))
  }

  /** An entity attached to the world whose game data is of the solid class. */
  predicate IsBrushEntity(t: MapTree, x: int) {
    && x in t.objects
    && InSubtree(t, x, t.worldSpawn)
    && t.objects[x].kind == Entity
    && t.objects[x].gameData == Some(ClassType.Solid)
  }

  /**
   The entities the check reports, as Sledge's query finds them: of the brush
   entities of the world, the ones with anything but groups and solids below them.
   */
  function OffendingEntities(t: MapTree): (r: seq<int>)
    ensures StrictlyIncreasing(r)
    ensures forall x :: x in r <==> Offends(t, x)
  {
    var offending := FilterIds(BrushEntities(t), x => |FindBelow(t, x, IsForeignContent)| > 0);
    assert forall x :: x in offending <==> Offends(t, x) by {
      forall x
        ensures x in offending <==> Offends(t, x)
      {
        AnyForeignContent(t, x);
      }
    }
    offending
  }

  /**
   `Check`: one problem per offending entity, naming only that entity, in ascending
   identity order. The tree is only read, so scanning an unchanged tree twice yields
   the same problems.
   */
  function Check(t: MapTree): (r: seq<Problem>)
    ensures forall i :: 0 <= i < |r| ==>
      && |r[i].objects| == 1
      && Offends(t, r[i].objects[0])
      && r[i].title == Title
      && r[i].description == Description
    ensures forall x :: Offends(t, x) <==> exists i :: 0 <= i < |r| && r[i].objects == [x]
    ensures forall i, j :: 0 <= i < j < |r| ==> r[i].objects[0] < r[j].objects[0]
  {
    var offending := OffendingEntities(t);
    var r := ProblemsFor(offending);
    ProblemsForNames(offending);
    r
  }

  /** One problem per identity, naming that identity alone. */
  function ProblemsFor(ids: seq<int>): (r: seq<Problem>)
    ensures |r| == |ids|
    ensures forall i :: 0 <= i < |ids| ==> r[i] == Problem([ids[i]], Title, Description)
  {
    seq(|ids|, i requires 0 <= i < |ids| => Problem([ids[i]], Title, Description))
  }

  /** The problems for `ids` name exactly the identities of `ids`. */
  lemma ProblemsForNames(ids: seq<int>)
    ensures forall x :: x in ids <==> exists i :: 0 <= i < |ProblemsFor(ids)| && ProblemsFor(ids)[i].objects == [x]
  {
    var r := ProblemsFor(ids);
    forall x | x in ids
      ensures exists i :: 0 <= i < |r| && r[i].objects == [x]
    {
      var i :| 0 <= i < |ids| && ids[i] == x;
      assert r[i].objects == [x];
    }
    forall x | exists i :: 0 <= i < |r| && r[i].objects == [x]
      ensures x in ids
    {
      var i :| 0 <= i < |r| && r[i].objects == [x];
      assert ids[i] == r[i].objects[0];
    }
  }

  /**
   `Fix`: a reparent action, not yet performed, whose target is the offender's parent
   and whose records are every entity below the offender, each with its current parent.
   */
  function Fix(t: MapTree, p: Problem): (a: Reparent)
    requires |p.objects| > 0
    requires p.objects[0] in t.objects && t.objects[p.objects[0]].parent.Some?
    ensures a.Reparent?
    ensures a.parentId == t.objects[p.objects[0]].parent.value
    ensures forall y :: y in RecordedIds(a.refs) <==>
      y in t.objects && IsDescendant(t, y, p.objects[0]) && t.objects[y].kind == Entity
    ensures StrictlyIncreasing(RecordedIds(a.refs))
    ensures forall i :: 0 <= i < |a.refs| ==> t.objects[a.refs[i].id].parent == Some(a.refs[i].originalParentId)
  {
    var e := p.objects[0];
    var entities := FindBelow(t, e, IsEntity);
    assert CanRecord(t, entities) by {
      forall i | 0 <= i < |entities|
        ensures entities[i] in t.objects && t.objects[entities[i]].parent.Some?
      {
        assert entities[i] in entities;
        DescendantHasParent(t, entities[i], e);
      }
    }
    NewReparent(t, t.objects[e].parent.value, entities)
  }

  /**
   The step behind the fix's correctness: after every object in `moved` is lifted to
   the parent of `e`, a chain that climbs from `x` to `e` in the new tree climbs the
   same way in the old tree and passes no lifted object, provided `e` was not its own
   ancestor.
   */
  lemma {:induction false} LiftedChainStaysBelow(t: MapTree, t': MapTree, e: int, moved: seq<int>, x: int, n: nat)
    requires t'.objects.Keys == t.objects.Keys
    requires e in t.objects && t.objects[e].parent.Some?
    requires forall y :: y in t.objects ==>
      t'.objects[y] == if y in moved then t.objects[y].(parent := t.objects[e].parent) else t.objects[y]
    requires n <= |t.objects|
    requires !IsDescendant(t, e, e)
    requires AncestorWithin(t'.objects, e, x, n)
    ensures AncestorWithin(t.objects, e, x, n)
    ensures x !in moved
    decreases n
  {
    var p := t'.objects[x].parent.value;
    if p != e {
      LiftedChainStaysBelow(t, t', e, moved, p, n - 1);
      if x in moved {
        assert AncestorWithin(t.objects, e, e, n);
        AncestorWithinMonotonic(t.objects, e, e, n, |t.objects|);
      }
    }
  }

  /**
   Performing the fix for `e` on a tree where `e` is not its own ancestor leaves no
   entity below `e`.
   */
  lemma LiftedLeavesNoEntityBelow(t: MapTree, p: Problem, after: MapTree)
    requires |p.objects| > 0
    requires p.objects[0] in t.objects && t.objects[p.objects[0]].parent.Some?
    requires !IsDescendant(t, p.objects[0], p.objects[0])
    requires after.objects.Keys == t.objects.Keys
    requires var moved := RecordedIds(Fix(t, p).refs);
      forall y :: y in t.objects ==>
        after.objects[y] == if y in moved then t.objects[y].(parent := t.objects[p.objects[0]].parent) else t.objects[y]
    ensures forall y :: y in after.objects && IsDescendant(after, y, p.objects[0]) ==> after.objects[y].kind != Entity
  {
    var e := p.objects[0];
    var moved := RecordedIds(Fix(t, p).refs);
    assert |after.objects| == |t.objects| by {
      assert after.objects.Keys == t.objects.Keys;
    }
    forall y | y in after.objects && IsDescendant(after, y, e)
      ensures after.objects[y].kind != Entity
    {
      LiftedChainStaysBelow(t, after, e, moved, y, |t.objects|);
    }
  }

  /** The facts about a well-formed tree that the fix needs. */
  lemma WellFormedParent(t: MapTree, e: int)
    requires WellFormed(t)
    requires e in t.objects && t.objects[e].parent.Some?
    ensures Resolves(t, t.objects[e].parent.value)
    ensures !IsDescendant(t, e, e)
  {
  }

  /** The fix for a problem naming a live object with a parent can be performed on a well-formed tree. */
  lemma FixCanPerform(d: Document, p: Problem)
    requires WellFormed(d.tree)
    requires |p.objects| > 0
    requires p.objects[0] in d.tree.objects && d.tree.objects[p.objects[0]].parent.Some?
    ensures CanPerform(Fix(d.tree, p), d)
  {
    var a := Fix(d.tree, p);
    WellFormedParent(d.tree, p.objects[0]);
    forall i | 0 <= i < |a.refs|
      ensures a.refs[i].id in d.tree.objects
    {
      assert RecordedIds(a.refs)[i] == a.refs[i].id;
    }
  }

  /** Performing the fix lifts exactly the recorded entities to the offender's parent. */
  lemma PerformedFixLifts(d: Document, p: Problem)
    requires |p.objects| > 0
    requires p.objects[0] in d.tree.objects && d.tree.objects[p.objects[0]].parent.Some?
    requires CanPerform(Fix(d.tree, p), d)
    ensures var t := d.tree; var after := Perform(Fix(t, p), d).tree;
      && after.objects.Keys == t.objects.Keys
      && forall y :: y in t.objects ==>
        after.objects[y] ==
          if y in RecordedIds(Fix(t, p).refs) then t.objects[y].(parent := t.objects[p.objects[0]].parent)
          else t.objects[y]
  {
  }

  /**
   Performing the fix for `e` on a well-formed tree leaves no entity below `e`.
   */
  lemma FixLeavesNoEntityBelow(d: Document, p: Problem)
    requires WellFormed(d.tree)
    requires |p.objects| > 0
    requires p.objects[0] in d.tree.objects && d.tree.objects[p.objects[0]].parent.Some?
    ensures CanPerform(Fix(d.tree, p), d)
    ensures var e := p.objects[0];
      var after := Perform(Fix(d.tree, p), d).tree;
      forall y :: y in after.objects && IsDescendant(after, y, e) ==> after.objects[y].kind != Entity
  {
    FixCanPerform(d, p);
    WellFormedParent(d.tree, p.objects[0]);
    PerformedFixLifts(d, p);
    LiftedLeavesNoEntityBelow(d.tree, p, Perform(Fix(d.tree, p), d).tree);
  }

  /**
   With no entity below `e` and no world object other than the root, nothing below
   `e` is foreign content.
   */
  lemma NoEntityBelowNoForeign(t: MapTree, e: int)
    requires forall y :: y in t.objects && IsDescendant(t, y, e) ==> t.objects[y].kind != Entity
    requires forall y :: y in t.objects && t.objects[y].kind == World ==> t.objects[y].parent.None?
    ensures !HasForeignContent(t, e)
  {
    forall y | y in t.objects && IsDescendant(t, y, e)
      ensures !IsForeignContent(t.objects[y])
    {
      DescendantHasParent(t, y, e);
    }
  }

  /** Performing the fix on a well-formed tree leaves every world object without a parent. */
  lemma FixKeepsWorldRoot(d: Document, p: Problem)
    requires WellFormed(d.tree)
    requires |p.objects| > 0
    requires p.objects[0] in d.tree.objects && d.tree.objects[p.objects[0]].parent.Some?
    requires CanPerform(Fix(d.tree, p), d)
    ensures var after := Perform(Fix(d.tree, p), d).tree;
      forall y :: y in after.objects && after.objects[y].kind == World ==> after.objects[y].parent.None?
  {
    PerformedFixLifts(d, p);
  }

  /**
   Fix closure: in a well-formed tree, performing the fix for a problem naming `e`
   leaves no entity below `e`, so the check no longer reports `e`.
   */
  lemma FixClearsProblem(d: Document, p: Problem)
    requires WellFormed(d.tree)
    requires |p.objects| > 0
    requires p.objects[0] in d.tree.objects && d.tree.objects[p.objects[0]].parent.Some?
    ensures CanPerform(Fix(d.tree, p), d)
    ensures var e := p.objects[0];
      var after := Perform(Fix(d.tree, p), d).tree;
      && (forall y :: y in after.objects && IsDescendant(after, y, e) ==> after.objects[y].kind != Entity)
      && !Offends(after, e)
  {
    FixLeavesNoEntityBelow(d, p);
    FixKeepsWorldRoot(d, p);
    NoEntityBelowNoForeign(Perform(Fix(d.tree, p), d).tree, p.objects[0]);
  }

  /** The world root 1 holding brush entity 2, which holds group 3, which holds point entity 4. */
  function NestedEntityMap(): MapTree {
    MapTree(1, map[
      1 := MapObject(None, World, None),
      2 := MapObject(Some(1), Entity, Some(ClassType.Solid)),
      3 := MapObject(Some(2), Group, None),
      4 := MapObject(Some(3), Entity, Some(ClassType.Point))])
  }

  /** The parent chains of the nested map. */
  lemma NestedEntityChains()
    ensures var t := NestedEntityMap();
      && t.objects.Keys == {1, 2, 3, 4}
      && |t.objects| == 4
      && IsDescendant(t, 4, 2)
      && !IsDescendant(t, 2, 2)
      && InSubtree(t, 2, 1)
  {
    var t := NestedEntityMap();
    assert t.objects.Keys == {1, 2, 3, 4};
    assert |t.objects| == |t.objects.Keys|;
    assert AncestorWithin(t.objects, 2, 3, 3);
    assert !AncestorWithin(t.objects, 2, 1, 3);
  }

  /** On the nested map the only entity below entity 2 is entity 4. */
  lemma NestedEntityBelow(y: int)
    ensures var t := NestedEntityMap();
      y in t.objects && IsDescendant(t, y, 2) && t.objects[y].kind == Entity <==> y == 4
  {
    var t := NestedEntityMap();
    NestedEntityChains();
    if y in t.objects && y != 4 {
      assert y in {1, 2, 3};
      assert y == 1 ==> t.objects[y].parent.None?;
    }
  }

  /** On the nested map only entity 2 offends. */
  lemma NestedEntityOffenders(x: int)
    ensures Offends(NestedEntityMap(), x) <==> x == 2
  {
    var t := NestedEntityMap();
    NestedEntityChains();
    if x == 2 {
      assert 4 in t.objects && IsDescendant(t, 4, 2) && IsForeignContent(t.objects[4]);
    } else if x in t.objects {
      assert x in {1, 3, 4};
    }
  }

  /** A map with exactly one offender gets exactly one problem, naming it. */
  lemma CheckSingleOffender(t: MapTree, e: int)
    requires forall x :: Offends(t, x) <==> x == e
    ensures Check(t) == [Problem([e], Title, Description)]
  {
    SingleIncreasing(OffendingEntities(t), e);
  }

  /** On the nested map the check reports entity 2 alone. */
  lemma NestedEntityCheck()
    ensures Check(NestedEntityMap()) == [Problem([2], Title, Description)]
  {
    forall x
      ensures Offends(NestedEntityMap(), x) <==> x == 2
    {
      NestedEntityOffenders(x);
    }
    CheckSingleOffender(NestedEntityMap(), 2);
  }


  /** When exactly one entity lies below the offender, the fix records that entity alone. */
  lemma FixRecordsSingle(t: MapTree, p: Problem, x: int)
    requires |p.objects| > 0
    requires p.objects[0] in t.objects && t.objects[p.objects[0]].parent.Some?
    requires forall y :: y in t.objects && IsDescendant(t, y, p.objects[0]) && t.objects[y].kind == Entity <==> y == x
    ensures RecordedIds(Fix(t, p).refs) == [x]
  {
    var e := p.objects[0];
    var ids := RecordedIds(Fix(t, p).refs);
    assert StrictlyIncreasing(ids);
    assert forall y :: y in ids <==> y in t.objects && IsDescendant(t, y, e) && t.objects[y].kind == Entity;
    SingleIncreasing(ids, x);
  }

  /** ... and the action it builds is that one record under the offender's parent. */
  lemma FixSingleEntity(t: MapTree, p: Problem, x: int)
    requires |p.objects| > 0
    requires p.objects[0] in t.objects && t.objects[p.objects[0]].parent.Some?
    requires forall y :: y in t.objects && IsDescendant(t, y, p.objects[0]) && t.objects[y].kind == Entity <==> y == x
    ensures x in t.objects && t.objects[x].parent.Some?
    ensures Fix(t, p) == Reparent(t.objects[p.objects[0]].parent.value, [ReparentReference(x, t.objects[x].parent.value)])
  {
    FixRecordsSingle(t, p, x);
    SingleRecord(t, Fix(t, p).refs, x);
  }

  /** A record list naming only `x`, taken from `t`, is the one record of `x` and its parent. */
  lemma SingleRecord(t: MapTree, refs: seq<ReparentReference>, x: int)
    requires RecordedIds(refs) == [x]
    requires forall i :: 0 <= i < |refs| ==>
      refs[i].id in t.objects && t.objects[refs[i].id].parent == Some(refs[i].originalParentId)
    ensures x in t.objects && t.objects[x].parent.Some?
    ensures refs == [ReparentReference(x, t.objects[x].parent.value)]
  {
    assert refs[0].id == RecordedIds(refs)[0];
  }

  /** On the nested map the fix lifts entity 4 from group 3 to the world root. */
  lemma NestedEntityFixAction()
    ensures Fix(NestedEntityMap(), Problem([2], Title, Description)) == Reparent(1, [ReparentReference(4, 3)])
  {
    var t := NestedEntityMap();
    forall y
      ensures y in t.objects && IsDescendant(t, y, 2) && t.objects[y].kind == Entity <==> y == 4
    {
      NestedEntityBelow(y);
    }
    FixSingleEntity(t, Problem([2], Title, Description), 4);
  }

  /** Performing that action moves entity 4 to the root; reversing it puts the map back. */
  lemma NestedEntityRoundTrip(d: Document)
    requires d.tree == NestedEntityMap()
    ensures var a := Reparent(1, [ReparentReference(4, 3)]);
      && CanPerform(a, d)
      && Perform(a, d).tree.objects[4].parent == Some(1)
      && CanReverse(a, Perform(a, d))
      && Reverse(a, Perform(a, d)).tree == d.tree
  {
    var t := d.tree;
    var a := Reparent(1, [ReparentReference(4, 3)]);
    assert RecordedIds(a.refs) == [4];
    assert Resolves(t, 1);
    var after := Perform(a, d).tree;
    assert after.objects[3] == t.objects[3] && after.objects[2] == t.objects[2];
    assert after.objects[1] == t.objects[1];
    assert AncestorWithin(after.objects, 1, 2, |after.objects|) by {
      NestedEntityChains();
    }
    assert AncestorWithin(after.objects, 1, 3, |after.objects|) by {
      NestedEntityChains();
      assert AncestorWithin(after.objects, 1, 2, |after.objects| - 1);
    }
    var back := Reverse(a, Perform(a, d)).tree;
    assert back.objects == t.objects;
  }

  /**
   The worked example: on the nested map the fix for entity 2 moves entity 4 to the
   world root when performed, and reversing it puts the map back as it was.
   */
  lemma NestedEntityFix(d: Document)
    requires d.tree == NestedEntityMap()
    ensures var a := Fix(d.tree, Problem([2], Title, Description));
      && a == Reparent(1, [ReparentReference(4, 3)])
      && CanPerform(a, d)
      && Perform(a, d).tree.objects[4].parent == Some(1)
      && CanReverse(a, Perform(a, d))
      && Reverse(a, Perform(a, d)).tree == d.tree
  {
    NestedEntityFixAction();
    NestedEntityRoundTrip(d);
  }
}
