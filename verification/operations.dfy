/**
 The reversible reparent action (`Sledge.Editor.Actions.MapObjects.Operations.Reparent`).

 At construction the action records, for each object in input order, the object's
 identity and the identity of its parent at that moment; it changes nothing.
 `Perform` moves every recorded object under one target parent; `Reverse` puts
 each recorded object back under its own recorded parent. In the arena an object
 is its identity, so the record's object reference and its identity coincide.
 */
module Operations {
  import opened Wrappers
  import opened Ids
  import opened MapObjects
  import opened Documents

  /** What the action remembers about one object. */
  datatype ReparentReference = ReparentReference(id: int, originalParentId: int)

  /** A live action holding its target and its records, or one whose records were released. */
  datatype Reparent =
    | Reparent(parentId: int, refs: seq<ReparentReference>)
    | Disposed(parentId: int)

  /** The identities of the recorded objects, in record order. */
  function RecordedIds(refs: seq<ReparentReference>): (ids: seq<int>)
    ensures |ids| == |refs|
    ensures forall i :: 0 <= i < |refs| ==> ids[i] == refs[i].id
  {
    seq(|refs|, i requires 0 <= i < |refs| => refs[i].id)
  }

  lemma RecordedIdsCons(refs: seq<ReparentReference>)
    requires refs != []
    ensures RecordedIds(refs) == [refs[0].id] + RecordedIds(refs[1..])
  {
  }

  /** Every input object is live and has a parent, whose identity construction reads. */
  predicate CanRecord(t: MapTree, objects: seq<int>) {
    forall i :: 0 <= i < |objects| ==> objects[i] in t.objects && t.objects[objects[i]].parent.Some?
  }

  /** Every recorded object is still a live object of the document. */
  predicate RecordsLive(t: MapTree, refs: seq<ReparentReference>) {
    forall i :: 0 <= i < |refs| ==> refs[i].id in t.objects
  }

  /** Records naming the same object name the same original parent. */
  predicate Consistent(refs: seq<ReparentReference>) {
    forall i, j :: 0 <= i < |refs| && 0 <= j < |refs| && refs[i].id == refs[j].id ==>
      refs[i].originalParentId == refs[j].originalParentId
  }

  /**
   The constructor: one record per input object, in input order, each holding the
   object's identity and its current parent's identity. The tree is only read.
   */
  function NewReparent(t: MapTree, parentId: int, objects: seq<int>): (a: Reparent)
    requires CanRecord(t, objects)
    ensures a.Reparent? && a.parentId == parentId
    ensures RecordedIds(a.refs) == objects
    ensures forall i :: 0 <= i < |a.refs| ==> t.objects[a.refs[i].id].parent == Some(a.refs[i].originalParentId)
    ensures RecordsLive(t, a.refs) && Consistent(a.refs)
  {
    Reparent(parentId, seq(|objects|, i requires 0 <= i < |objects| =>
      ReparentReference(objects[i], t.objects[objects[i]].parent.value)))
  }

  /** The objects the action keeps alive. */
  function Referenced(a: Reparent): set<int> {
    if a.Reparent? then set i | 0 <= i < |a.refs| :: a.refs[i].id else {}
  }

  /** `Dispose`: the records are released; the target identity stays. */
  function Dispose(a: Reparent): (r: Reparent)
    ensures Referenced(r) == {}
    ensures r.parentId == a.parentId
    ensures r.Disposed?
  {
    Disposed(a.parentId)
  }

  /** `SetParent(target)` on each recorded object in turn. */
  function MoveTree(t: MapTree, refs: seq<ReparentReference>, target: int): (r: MapTree)
    requires RecordsLive(t, refs)
    ensures r.worldSpawn == t.worldSpawn
    ensures r.objects.Keys == t.objects.Keys
    decreases |refs|
  {
    if refs == [] then t
    else MoveTree(MapObjects.SetParent(t, refs[0].id, target), refs[1..], target)
  }

  /** The moves `Perform` logs, one per record, in record order. */
  function MoveEvents(refs: seq<ReparentReference>, target: int): (events: seq<Event>)
    ensures |events| == |refs|
    ensures forall i :: 0 <= i < |refs| ==> events[i] == ParentSet(refs[i].id, target)
  {
    seq(|refs|, i requires 0 <= i < |refs| => ParentSet(refs[i].id, target))
  }

  /** The precondition of `Perform`: the action is live, its target resolves and its objects are live. */
  predicate CanPerform(a: Reparent, d: Document) {
    && a.Reparent?
    && Resolves(d.tree, a.parentId)
    && RecordsLive(d.tree, a.refs)
  }

  /**
   `Perform`: every recorded object moves under the object `parentId` resolves to;
   then one batched auto-visgroup update and the two notifications follow.
   */
  function Perform(a: Reparent, d: Document): (r: Document)
    requires CanPerform(a, d)
    ensures r.tree.worldSpawn == d.tree.worldSpawn
    ensures r.tree.objects.Keys == d.tree.objects.Keys
    ensures forall x :: x in d.tree.objects ==>
      r.tree.objects[x] == if x in RecordedIds(a.refs) then d.tree.objects[x].(parent := Some(a.parentId)) else d.tree.objects[x]
    ensures |r.log| == |d.log| + |a.refs| + 3 && r.log[..|d.log|] == d.log
  {
    MoveTreeEffect(d.tree, a.refs, a.parentId);
    var tree := MoveTree(d.tree, a.refs, a.parentId);
    var events := MoveEvents(a.refs, a.parentId) + [AutoVisgroupsUpdated(RecordedIds(a.refs))]
      + [Published(DocumentTreeStructureChanged), Published(VisgroupsChanged)];
    Document(tree, d.log + events)
  }

  /** The distinct original parents of the records. */
  function OriginalParents(refs: seq<ReparentReference>): set<int> {
    set i | 0 <= i < |refs| :: refs[i].originalParentId
  }

  /**
   The lookup table `Reverse` builds: each distinct original parent identity, resolved
   once. In the arena the object found for an identity is that identity.
   */
  function ResolveParents(t: MapTree, refs: seq<ReparentReference>): (table: map<int, int>)
    requires forall i :: 0 <= i < |refs| ==> Resolves(t, refs[i].originalParentId)
    ensures table.Keys == OriginalParents(refs)
    ensures forall p :: p in table ==> table[p] == p && Resolves(t, table[p])
  {
    map p | p in OriginalParents(refs) :: p
  }

  /** Every record's original parent has an entry in `table`. */
  predicate CoversParents(refs: seq<ReparentReference>, table: map<int, int>) {
    forall i :: 0 <= i < |refs| ==> refs[i].originalParentId in table
  }

  /** For each record in turn, the object goes back under its looked-up original parent. */
  function RestoreTree(t: MapTree, refs: seq<ReparentReference>, table: map<int, int>): (r: MapTree)
    requires RecordsLive(t, refs) && CoversParents(refs, table)
    ensures r.worldSpawn == t.worldSpawn
    ensures r.objects.Keys == t.objects.Keys
    decreases |refs|
  {
    if refs == [] then t
    else RestoreTree(MapObjects.SetParent(t, refs[0].id, table[refs[0].originalParentId]), refs[1..], table)
  }

  /** What `Reverse` logs: per record a move and that object's auto-visgroup update. */
  function RestoreEvents(refs: seq<ReparentReference>, table: map<int, int>): (events: seq<Event>)
    requires CoversParents(refs, table)
    decreases |refs|
  {
    if refs == [] then []
    else
      var o := refs[0];
      [ParentSet(o.id, table[o.originalParentId]), AutoVisgroupsUpdated([o.id])] + RestoreEvents(refs[1..], table)
  }

  /** The original parent recorded by the last record naming `x`: the one `Reverse` leaves in place. */
  function LastOriginalParent(refs: seq<ReparentReference>, x: int): int
    requires x in RecordedIds(refs)
    decreases |refs|
  {
    RecordedIdsCons(refs);
    if x in RecordedIds(refs[1..]) then LastOriginalParent(refs[1..], x) else refs[0].originalParentId
  }

  /** The precondition of `Reverse`: the action is live, its objects are live and every original parent resolves. */
  predicate CanReverse(a: Reparent, d: Document) {
    && a.Reparent?
    && RecordsLive(d.tree, a.refs)
    && forall i :: 0 <= i < |a.refs| ==> Resolves(d.tree, a.refs[i].originalParentId)
  }

  /**
   `Reverse`: each recorded object goes back under its original parent (for an object
   recorded twice, its last record decides), with one auto-visgroup update per
   object; then the two notifications follow.
   */
  function Reverse(a: Reparent, d: Document): (r: Document)
    requires CanReverse(a, d)
    ensures r.tree.worldSpawn == d.tree.worldSpawn
    ensures r.tree.objects.Keys == d.tree.objects.Keys
    ensures forall x :: x in d.tree.objects ==>
      r.tree.objects[x] ==
        if x in RecordedIds(a.refs) then d.tree.objects[x].(parent := Some(LastOriginalParent(a.refs, x)))
        else d.tree.objects[x]
    ensures |r.log| == |d.log| + 2 * |a.refs| + 2 && r.log[..|d.log|] == d.log
  {
    var table := ResolveParents(d.tree, a.refs);
    assert CoversParents(a.refs, table);
    RestoreTreeEffect(d.tree, a.refs, table);
    RestoreEventsShape(a.refs, table);
    var events := RestoreEvents(a.refs, table) + [Published(DocumentTreeStructureChanged), Published(VisgroupsChanged)];
    Document(RestoreTree(d.tree, a.refs, table), d.log + events)
  }

  /** Moving the recorded objects changes exactly their parent fields, each to `target`. */
  lemma {:induction false} MoveTreeEffect(t: MapTree, refs: seq<ReparentReference>, target: int)
    requires RecordsLive(t, refs)
    ensures forall x :: x in t.objects ==>
      MoveTree(t, refs, target).objects[x] ==
        if x in RecordedIds(refs) then t.objects[x].(parent := Some(target)) else t.objects[x]
    decreases |refs|
  {
    if refs != [] {
      var t' := MapObjects.SetParent(t, refs[0].id, target);
      RecordedIdsCons(refs);
      MoveTreeEffect(t', refs[1..], target);
    }
  }

  /** Restoring changes exactly the recorded objects' parent fields, each to its last record's parent. */
  lemma {:induction false} RestoreTreeEffect(t: MapTree, refs: seq<ReparentReference>, table: map<int, int>)
    requires RecordsLive(t, refs) && CoversParents(refs, table)
    requires forall p :: p in table ==> table[p] == p
    ensures forall x :: x in t.objects ==>
      RestoreTree(t, refs, table).objects[x] ==
        if x in RecordedIds(refs) then t.objects[x].(parent := Some(LastOriginalParent(refs, x))) else t.objects[x]
    decreases |refs|
  {
    if refs != [] {
      var t' := MapObjects.SetParent(t, refs[0].id, table[refs[0].originalParentId]);
      RecordedIdsCons(refs);
      RestoreTreeEffect(t', refs[1..], table);
    }
  }

  /** The restore log alternates a move and an update, record by record. */
  lemma {:induction false} RestoreEventsShape(refs: seq<ReparentReference>, table: map<int, int>)
    requires CoversParents(refs, table)
    ensures |RestoreEvents(refs, table)| == 2 * |refs|
    ensures forall i :: 0 <= i < |refs| ==>
      && RestoreEvents(refs, table)[2 * i] == ParentSet(refs[i].id, table[refs[i].originalParentId])
      && RestoreEvents(refs, table)[2 * i + 1] == AutoVisgroupsUpdated([refs[i].id])
    decreases |refs|
  {
    if refs != [] {
      RestoreEventsShape(refs[1..], table);
      var rest := RestoreEvents(refs[1..], table);
      forall i | 1 <= i < |refs|
        ensures RestoreEvents(refs, table)[2 * i] == ParentSet(refs[i].id, table[refs[i].originalParentId])
        ensures RestoreEvents(refs, table)[2 * i + 1] == AutoVisgroupsUpdated([refs[i].id])
      {
        assert refs[i] == refs[1..][i - 1];
        assert RestoreEvents(refs, table)[2 * i] == rest[2 * (i - 1)];
        assert RestoreEvents(refs, table)[2 * i + 1] == rest[2 * (i - 1) + 1];
      }
    }
  }
}
