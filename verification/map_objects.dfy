/**
 The object tree of a map, as an arena keyed by stable object identity.

 Every live object of a document is a record in `objects`; its parent is an
 identity (`None` for the world root and for detached objects) rather than a
 reference, and children are the objects that name it as their parent. Lookups
 start at the world root (`worldSpawn`), so an object resolves only while it is
 attached below that root.
 */
module MapObjects {
  import opened Wrappers
  import opened Ids

  /** The concrete class of a map object. */
  datatype ObjectKind = World | Group | Solid | Entity

  /** The game-data classification of an entity (`ClassType`): a base class, a point entity or a brush entity. */
  datatype ClassType = Base | Point | Solid

  /** One map object: its parent's identity, its kind, and (for entities) its game data, `None` when absent. */
  datatype MapObject = MapObject(parent: Option<int>, kind: ObjectKind, gameData: Option<ClassType>)

  /** A map: the identity of the world root and every live object by identity. */
  datatype MapTree = MapTree(worldSpawn: int, objects: map<int, MapObject>)

  /** `a` is reached from `x` by between one and `fuel` steps up the parent chain. */
  predicate AncestorWithin(objects: map<int, MapObject>, a: int, x: int, fuel: nat)
    decreases fuel
  {
    && fuel > 0
    && x in objects
    && objects[x].parent.Some?
    && (objects[x].parent.value == a || AncestorWithin(objects, a, objects[x].parent.value, fuel - 1))
  }

  /**
   `x` lies strictly below `a`. A parent chain without repetition visits at most
   one object per identity, so the number of live objects bounds the search.
   */
  predicate IsDescendant(t: MapTree, x: int, a: int) {
    AncestorWithin(t.objects, a, x, |t.objects|)
  }

  /** `x` is `a` itself or lies below it: what `FindAll` on `a` visits. */
  predicate InSubtree(t: MapTree, x: int, a: int) {
    x == a || IsDescendant(t, x, a)
  }

  /** `FindByID` on the world root finds the object `id`. */
  predicate Resolves(t: MapTree, id: int) {
    id in t.objects && InSubtree(t, id, t.worldSpawn)
  }

  /** No object is its own ancestor. */
  ghost predicate Acyclic(t: MapTree) {
    forall x :: x in t.objects ==> !IsDescendant(t, x, x)
  }

  /**
   The tree shape every document maintains: a single world root without a parent,
   no other world object, every parent live, every object attached below the root,
   and no cycles.
   */
  ghost predicate WellFormed(t: MapTree) {
    && t.worldSpawn in t.objects
    && t.objects[t.worldSpawn].kind == World
    && (forall x :: x in t.objects ==> (t.objects[x].kind == World <==> x == t.worldSpawn))
    && (forall x :: x in t.objects ==> (t.objects[x].parent.None? <==> x == t.worldSpawn))
    && (forall x :: x in t.objects && t.objects[x].parent.Some? ==> t.objects[x].parent.value in t.objects)
    && (forall x :: x in t.objects ==> InSubtree(t, x, t.worldSpawn))
    && Acyclic(t)
  }

  /**
   `MapObject.SetParent`: object `id` now names `parentId` as its parent.
   Only that one field of that one object changes.
   */
  function SetParent(t: MapTree, id: int, parentId: int): (r: MapTree)
    requires id in t.objects
    ensures r.worldSpawn == t.worldSpawn
    ensures r.objects.Keys == t.objects.Keys
    ensures r.objects[id] == t.objects[id].(parent := Some(parentId))
    ensures forall x :: x in t.objects && x != id ==> r.objects[x] == t.objects[x]
  {
    t.(objects := t.objects[id := t.objects[id].(parent := Some(parentId))])
  }

  /**
   `Find(predicate)` on object `a`: every object of the subtree of `a`, `a` included,
   that satisfies `matches`, listed in ascending identity order.
   */
  function Find(t: MapTree, a: int, matches: MapObject -> bool): (r: seq<int>)
    ensures StrictlyIncreasing(r)
    ensures forall x :: x in r <==> x in t.objects && InSubtree(t, x, a) && matches(t.objects[x])
  {
    FilterIds(SortedKeys(t.objects.Keys), x => x in t.objects && InSubtree(t, x, a) && matches(t.objects[x]))
  }

  /**
   `a.Children.SelectMany(c => c.Find(matches))`: every object strictly below `a`
   that satisfies `matches`, in ascending identity order.
   */
  function FindBelow(t: MapTree, a: int, matches: MapObject -> bool): (r: seq<int>)
    ensures StrictlyIncreasing(r)
    ensures forall x :: x in r <==> x in t.objects && IsDescendant(t, x, a) && matches(t.objects[x])
  {
    FilterIds(SortedKeys(t.objects.Keys), x => x in t.objects && IsDescendant(t, x, a) && matches(t.objects[x]))
  }

  /** A descendant is a live object with a parent. */
  lemma DescendantHasParent(t: MapTree, x: int, a: int)
    requires IsDescendant(t, x, a)
    ensures x in t.objects && t.objects[x].parent.Some?
  {
  }

  /** Allowing more steps up the parent chain finds every ancestor found with fewer. */
  lemma {:induction false} AncestorWithinMonotonic(objects: map<int, MapObject>, a: int, x: int, n: nat, n': nat)
    requires n <= n'
    requires AncestorWithin(objects, a, x, n)
    ensures AncestorWithin(objects, a, x, n')
    decreases n
  {
    var p := objects[x].parent.value;
    if p != a {
      AncestorWithinMonotonic(objects, a, p, n - 1, n' - 1);
    }
  }
}
