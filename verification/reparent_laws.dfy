/**
 What the reparent action promises across calls: undo restores the tree exactly,
 each object returns to its own original parent, redo after undo repeats the
 first run, and each run publishes its two notifications once, after every move.
 */
module ReparentLaws {
  import opened Wrappers
  import opened MapObjects
  import opened Documents
  import opened Operations

  /** With consistent records, the parent `Reverse` restores for an object is the one its own record holds. */
  lemma {:induction false} ConsistentLastParent(refs: seq<ReparentReference>, i: int)
    requires Consistent(refs)
    requires 0 <= i < |refs|
    ensures refs[i].id in RecordedIds(refs)
    ensures LastOriginalParent(refs, refs[i].id) == refs[i].originalParentId
    decreases |refs|
  {
    RecordedIdsCons(refs);
    var x := refs[i].id;
    var rest := refs[1..];
    if i > 0 || x in RecordedIds(rest) {
      var j :| 0 <= j < |rest| && RecordedIds(rest)[j] == x;
      assert rest[j] == refs[j + 1];
      assert Consistent(rest) by {
        forall k, l | 0 <= k < |rest| && 0 <= l < |rest| && rest[k].id == rest[l].id
          ensures rest[k].originalParentId == rest[l].originalParentId
        {
          assert rest[k] == refs[k + 1] && rest[l] == refs[l + 1];
        }
      }
      ConsistentLastParent(rest, j);
    }
  }

  /**
   Reversing puts every recorded object under its own recorded parent, however many
   distinct parents the objects came from.
   */
  lemma ReverseRestoresOwnParents(a: Reparent, d: Document)
    requires CanReverse(a, d)
    requires Consistent(a.refs)
    ensures forall i :: 0 <= i < |a.refs| ==>
      Reverse(a, d).tree.objects[a.refs[i].id].parent == Some(a.refs[i].originalParentId)
  {
    forall i | 0 <= i < |a.refs|
      ensures Reverse(a, d).tree.objects[a.refs[i].id].parent == Some(a.refs[i].originalParentId)
    {
      ConsistentLastParent(a.refs, i);
    }
  }

  /**
   Undo after do: for an action constructed on `d`, `Perform` then `Reverse` gives
   back exactly the tree of `d`, provided every original parent still resolves when
   `Reverse` runs.
   */
  lemma PerformThenReverseRestores(d: Document, target: int, objects: seq<int>)
    requires CanRecord(d.tree, objects)
    requires Resolves(d.tree, target)
    requires var a := NewReparent(d.tree, target, objects);
      forall i :: 0 <= i < |a.refs| ==> Resolves(Perform(a, d).tree, a.refs[i].originalParentId)
    ensures var a := NewReparent(d.tree, target, objects);
      Reverse(a, Perform(a, d)).tree == d.tree
  {
    var a := NewReparent(d.tree, target, objects);
    var done := Perform(a, d);
    var undone := Reverse(a, done);
    forall x | x in d.tree.objects
      ensures undone.tree.objects[x] == d.tree.objects[x]
    {
      if x in RecordedIds(a.refs) {
        var i :| 0 <= i < |a.refs| && RecordedIds(a.refs)[i] == x;
        ConsistentLastParent(a.refs, i);
      }
    }
  }

  /** Redo after undo: performing again yields the tree the first `Perform` produced. */
  lemma RedoRepeatsPerform(a: Reparent, d: Document)
    requires CanPerform(a, d)
    requires CanReverse(a, Perform(a, d))
    requires CanPerform(a, Reverse(a, Perform(a, d)))
    ensures Perform(a, Reverse(a, Perform(a, d))).tree == Perform(a, d).tree
  {
  }

  /** The events `Perform` appends: the moves, the batched update, then the two notifications. */
  lemma PerformLogSplit(a: Reparent, d: Document)
    requires CanPerform(a, d)
    ensures Perform(a, d).log[|d.log|..] ==
      MoveEvents(a.refs, a.parentId)
      + ([AutoVisgroupsUpdated(RecordedIds(a.refs))]
         + [Published(DocumentTreeStructureChanged), Published(VisgroupsChanged)])
  {
  }

  /** How often `Perform` publishes and updates. */
  lemma PerformLogCounts(a: Reparent, d: Document)
    requires CanPerform(a, d)
    ensures var s := Perform(a, d).log[|d.log|..];
      && PublishCount(s, DocumentTreeStructureChanged) == 1
      && PublishCount(s, VisgroupsChanged) == 1
      && UpdateCount(s) == 1
  {
    PerformLogSplit(a, d);
    var moves := MoveEvents(a.refs, a.parentId);
    var update := [AutoVisgroupsUpdated(RecordedIds(a.refs))];
    var closing := [Published(DocumentTreeStructureChanged), Published(VisgroupsChanged)];
    ClosingNotifications();
    assert update[1..] == [];
    NoPublishCount(moves, DocumentTreeStructureChanged);
    NoPublishCount(moves, VisgroupsChanged);
    NoUpdateCount(moves);
    PublishCountAppend(update, closing, DocumentTreeStructureChanged);
    PublishCountAppend(update, closing, VisgroupsChanged);
    UpdateCountAppend(update, closing);
    PublishCountAppend(moves, update + closing, DocumentTreeStructureChanged);
    PublishCountAppend(moves, update + closing, VisgroupsChanged);
    UpdateCountAppend(moves, update + closing);
  }

  /**
   `Perform` logs one move per record, then a single auto-visgroup update naming every
   recorded object, then `DocumentTreeStructureChanged` and `VisgroupsChanged`, each once.
   */
  lemma PerformNotifications(a: Reparent, d: Document)
    requires CanPerform(a, d)
    ensures var s := Perform(a, d).log[|d.log|..];
      && |s| == |a.refs| + 3
      && (forall i :: 0 <= i < |a.refs| ==> s[i] == ParentSet(a.refs[i].id, a.parentId))
      && s[|a.refs|] == AutoVisgroupsUpdated(RecordedIds(a.refs))
      && s[|a.refs| + 1] == Published(DocumentTreeStructureChanged)
      && s[|a.refs| + 2] == Published(VisgroupsChanged)
      && PublishCount(s, DocumentTreeStructureChanged) == 1
      && PublishCount(s, VisgroupsChanged) == 1
      && UpdateCount(s) == 1
      && PublishedAfterMoves(s)
  {
    PerformLogSplit(a, d);
    PerformLogCounts(a, d);
    var moves := MoveEvents(a.refs, a.parentId);
    PublishedAfterMovesAppend(moves,
      [AutoVisgroupsUpdated(RecordedIds(a.refs))]
      + [Published(DocumentTreeStructureChanged), Published(VisgroupsChanged)]);
  }

  /** The restore log holds exactly one auto-visgroup update per record and no publication. */
  lemma {:induction false} RestoreEventsCounts(refs: seq<ReparentReference>, table: map<int, int>)
    requires CoversParents(refs, table)
    ensures UpdateCount(RestoreEvents(refs, table)) == |refs|
    ensures forall i :: 0 <= i < |RestoreEvents(refs, table)| ==> !RestoreEvents(refs, table)[i].Published?
    decreases |refs|
  {
    if refs != [] {
      var o := refs[0];
      var head := [ParentSet(o.id, table[o.originalParentId]), AutoVisgroupsUpdated([o.id])];
      RestoreEventsCounts(refs[1..], table);
      UpdateCountAppend(head, RestoreEvents(refs[1..], table));
    }
  }

  /** The events `Reverse` appends: the per-record restores, then the two notifications. */
  lemma ReverseLogSplit(a: Reparent, d: Document)
    requires CanReverse(a, d)
    ensures CoversParents(a.refs, ResolveParents(d.tree, a.refs))
    ensures Reverse(a, d).log[|d.log|..] ==
      RestoreEvents(a.refs, ResolveParents(d.tree, a.refs))
      + [Published(DocumentTreeStructureChanged), Published(VisgroupsChanged)]
  {
    assert CoversParents(a.refs, ResolveParents(d.tree, a.refs));
  }

  /** Where each event of `Reverse` sits in its log. */
  lemma ReverseLogPositions(a: Reparent, d: Document)
    requires CanReverse(a, d)
    ensures var s := Reverse(a, d).log[|d.log|..];
      && |s| == 2 * |a.refs| + 2
      && (forall i :: 0 <= i < |a.refs| ==>
            s[2 * i].ParentSet? && s[2 * i].id == a.refs[i].id
            && s[2 * i + 1] == AutoVisgroupsUpdated([a.refs[i].id]))
      && s[2 * |a.refs|] == Published(DocumentTreeStructureChanged)
      && s[2 * |a.refs| + 1] == Published(VisgroupsChanged)
  {
    ReverseLogSplit(a, d);
    RestoreEventsShape(a.refs, ResolveParents(d.tree, a.refs));
  }

  /** How often `Reverse` publishes and updates. */
  lemma ReverseLogCounts(a: Reparent, d: Document)
    requires CanReverse(a, d)
    ensures var s := Reverse(a, d).log[|d.log|..];
      && PublishCount(s, DocumentTreeStructureChanged) == 1
      && PublishCount(s, VisgroupsChanged) == 1
      && UpdateCount(s) == |a.refs|
  {
    var table := ResolveParents(d.tree, a.refs);
    ReverseLogSplit(a, d);
    var restores := RestoreEvents(a.refs, table);
    var tail := [Published(DocumentTreeStructureChanged), Published(VisgroupsChanged)];
    ClosingNotifications();
    RestoreEventsCounts(a.refs, table);
    NoPublishCount(restores, DocumentTreeStructureChanged);
    NoPublishCount(restores, VisgroupsChanged);
    PublishCountAppend(restores, tail, DocumentTreeStructureChanged);
    PublishCountAppend(restores, tail, VisgroupsChanged);
    UpdateCountAppend(restores, tail);
  }

  /**
   `Reverse` logs, per record, a move followed by that object's own auto-visgroup
   update, then `DocumentTreeStructureChanged` and `VisgroupsChanged`, each once.
   */
  lemma ReverseNotifications(a: Reparent, d: Document)
    requires CanReverse(a, d)
    ensures var s := Reverse(a, d).log[|d.log|..];
      && |s| == 2 * |a.refs| + 2
      && (forall i :: 0 <= i < |a.refs| ==>
            s[2 * i].ParentSet? && s[2 * i].id == a.refs[i].id
            && s[2 * i + 1] == AutoVisgroupsUpdated([a.refs[i].id]))
      && s[2 * |a.refs|] == Published(DocumentTreeStructureChanged)
      && s[2 * |a.refs| + 1] == Published(VisgroupsChanged)
      && PublishCount(s, DocumentTreeStructureChanged) == 1
      && PublishCount(s, VisgroupsChanged) == 1
      && UpdateCount(s) == |a.refs|
      && PublishedAfterMoves(s)
  {
    ReverseLogPositions(a, d);
    ReverseLogCounts(a, d);
    var table := ResolveParents(d.tree, a.refs);
    ReverseLogSplit(a, d);
    RestoreEventsCounts(a.refs, table);
    PublishedAfterMovesAppend(RestoreEvents(a.refs, table),
      [Published(DocumentTreeStructureChanged), Published(VisgroupsChanged)]);
  }
}
