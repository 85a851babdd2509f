/**
 A document as the map actions see it: its object tree plus the ordered log of
 the effects actions have had on it. Each `MapObject.SetParent`,
 `Map.UpdateAutoVisgroups` and `Mediator.Publish` call is one event, so the number
 and order of notifications can be stated about an action's run.
 */
module Documents {
  import opened MapObjects

  /** The mediator messages the actions publish. */
  datatype Message = DocumentTreeStructureChanged | VisgroupsChanged

  datatype Event =
    | ParentSet(id: int, parentId: int)
    | AutoVisgroupsUpdated(ids: seq<int>)
    | Published(message: Message)

  datatype Document = Document(tree: MapTree, log: seq<Event>)

  /** How many times `events` publishes `message`. */
  function PublishCount(events: seq<Event>, message: Message): nat {
    if events == [] then 0
    else (if events[0] == Published(message) then 1 else 0) + PublishCount(events[1..], message)
  }

  /** How many auto-visgroup recomputations `events` holds. */
  function UpdateCount(events: seq<Event>): nat {
    if events == [] then 0
    else (if events[0].AutoVisgroupsUpdated? then 1 else 0) + UpdateCount(events[1..])
  }

  /** Every notification in `events` comes after every parent change. */
  predicate PublishedAfterMoves(events: seq<Event>) {
    forall i, j :: 0 <= i < |events| && 0 <= j < |events| && events[i].Published? && events[j].ParentSet? ==> j < i
  }

  lemma {:induction false} PublishCountAppend(a: seq<Event>, b: seq<Event>, message: Message)
    ensures PublishCount(a + b, message) == PublishCount(a, message) + PublishCount(b, message)
  {
    if a != [] {
      assert (a + b)[1..] == a[1..] + b;
      PublishCountAppend(a[1..], b, message);
    } else {
      assert a + b == b;
    }
  }

  lemma {:induction false} UpdateCountAppend(a: seq<Event>, b: seq<Event>)
    ensures UpdateCount(a + b) == UpdateCount(a) + UpdateCount(b)
  {
    if a != [] {
      assert (a + b)[1..] == a[1..] + b;
      UpdateCountAppend(a[1..], b);
    } else {
      assert a + b == b;
    }
  }

  /** The two closing notifications of an action: one of each message, no update. */
  lemma ClosingNotifications()
    ensures var tail := [Published(DocumentTreeStructureChanged), Published(VisgroupsChanged)];
      && PublishCount(tail, DocumentTreeStructureChanged) == 1
      && PublishCount(tail, VisgroupsChanged) == 1
      && UpdateCount(tail) == 0
  {
    var last := [Published(VisgroupsChanged)];
    assert last[1..] == [];
    assert PublishCount(last, DocumentTreeStructureChanged) == 0;
    assert PublishCount(last, VisgroupsChanged) == 1;
    assert UpdateCount(last) == 0;
    var tail := [Published(DocumentTreeStructureChanged), Published(VisgroupsChanged)];
    assert tail[1..] == last;
  }

  /** A run of events that holds no auto-visgroup update counts none. */
  lemma {:induction false} NoUpdateCount(events: seq<Event>)
    requires forall i :: 0 <= i < |events| ==> !events[i].AutoVisgroupsUpdated?
    ensures UpdateCount(events) == 0
  {
    if events != [] {
      NoUpdateCount(events[1..]);
    }
  }

  /** A run of events that holds no publication publishes nothing. */
  lemma {:induction false} NoPublishCount(events: seq<Event>, message: Message)
    requires forall i :: 0 <= i < |events| ==> !events[i].Published?
    ensures PublishCount(events, message) == 0
  {
    if events != [] {
      NoPublishCount(events[1..], message);
    }
  }

  /** Events without a publication, then events without a parent change, publish after every move. */
  lemma PublishedAfterMovesAppend(a: seq<Event>, b: seq<Event>)
    requires forall i :: 0 <= i < |a| ==> !a[i].Published?
    requires forall i :: 0 <= i < |b| ==> !b[i].ParentSet?
    ensures PublishedAfterMoves(a + b)
  {
  }
}
