/** The MSC2836 relationship store: the `DB` object whose two tables are
    updated in place by StoreRelation and read by ChildrenForParent. */
module Storage {
  import opened Events
  import opened Tables

  class DB {
    /** The rows of msc2836_edges, in scan order. */
    var edgeRows: seq<Relation>
    /** The rows of msc2836_nodes, keyed by event_id. */
    var nodes: map<string, Node>

    function State(): TableState
      reads this
    {
      TableState(edgeRows, nodes)
    }

    ghost predicate Valid()
      reads this
    {
      TablesValid(State())
    }

    /** Freshly created tables: both empty. */
    constructor ()
      ensures Valid() && State() == Empty
    {
      edgeRows := [];
      nodes := map[];
    }

    /** Stores the event's relation, if it has one, with the event's metadata.
        Both inserts are applied as one step, as the writer's transaction does. */
    method StoreRelation(ev: Option<Event>)
      requires Valid()
      modifies this
      ensures Valid()
      ensures State() == Store(old(State()), ev)
    {
      var r := ParentChildEventIDs(ev);
      if r.parent == "" || r.child == "" {
        return;
      }
      if r !in edgeRows {
        edgeRows := edgeRows + [r];
      }
      var id := ev.value.eventID;
      if id !in nodes {
        nodes := nodes[id := Node(ev.value.originServerTS, ev.value.roomID)];
      }
      StorePreservesValid(old(State()), ev);
    }

    /** The IDs of the events that have `eventID` as their parent with
        relation type `relType`, collected row by row. */
    method ChildrenForParent(eventID: string, relType: string) returns (children: seq<string>)
      requires Valid()
      ensures children == ChildrenOf(edgeRows, eventID, relType)
      ensures forall c :: c in children <==> Relation(eventID, c, relType) in edgeRows
      ensures Distinct(children)
      ensures (forall i :: 0 <= i < |edgeRows| ==> edgeRows[i].parent != eventID || edgeRows[i].relType != relType)
                ==> children == []
      ensures eventID == "" || relType == "" ==> children == []
    {
      children := [];
      var i := 0;
      while i < |edgeRows|
        invariant 0 <= i <= |edgeRows|
        invariant children == ChildrenOf(edgeRows[..i], eventID, relType)
      {
        var row := edgeRows[i];
        assert edgeRows[..i + 1][..i] == edgeRows[..i];
        if row.parent == eventID && row.relType == relType {
          children := children + [row.child];
        }
        i := i + 1;
      }
      assert edgeRows[..i] == edgeRows;
      forall c ensures c in children <==> Relation(eventID, c, relType) in edgeRows {
        ChildrenOfMembership(edgeRows, eventID, relType, c);
      }
      ChildrenOfDistinct(edgeRows, eventID, relType);
      if forall i :: 0 <= i < |edgeRows| ==> edgeRows[i].parent != eventID || edgeRows[i].relType != relType {
        NoMatchGivesEmpty(edgeRows, eventID, relType);
      }
      if eventID == "" || relType == "" {
        EmptyKeyGivesEmpty(State(), eventID, relType);
      }
    }
  }

  // A lookup example: B and C are "m.reference" children of A, D is an
  // "m.reply" child of A.

  const EvB := Event("B", "!room", 1, Parsed(Some("m.reference"), Some("A")))
  const EvC := Event("C", "!room", 2, Parsed(Some("m.reference"), Some("A")))
  const EvD := Event("D", "!room", 3, Parsed(Some("m.reply"), Some("A")))
  const RB := Relation("A", "B", "m.reference")
  const RC := Relation("A", "C", "m.reference")
  const RD := Relation("A", "D", "m.reply")

  /** The filter over the three edge rows, by relation type. */
  lemma ExampleQueries()
    ensures ChildrenOf([RB, RC, RD], "A", "m.reference") == ["B", "C"]
    ensures ChildrenOf([RB, RC, RD], "A", "m.reply") == ["D"]
    ensures ChildrenOf([RB, RC, RD], "A", "unknown-type") == []
  {
    assert [RB, RC, RD][..2] == [RB, RC];
    assert [RB, RC][..1] == [RB];
    assert [RB][..0] == [];
    assert ChildrenOf([], "A", "m.reference") == [];
    assert ChildrenOf([RB], "A", "m.reference") == ["B"];
    assert ChildrenOf([RB, RC], "A", "m.reference") == ["B", "C"];
    assert ChildrenOf([], "A", "m.reply") == [];
    assert ChildrenOf([RB], "A", "m.reply") == [];
    assert ChildrenOf([RB, RC], "A", "m.reply") == [];
    assert ChildrenOf([], "A", "unknown-type") == [];
    assert ChildrenOf([RB], "A", "unknown-type") == [];
    assert ChildrenOf([RB, RC], "A", "unknown-type") == [];
  }

  /** The edge rows after each store of the example; the repeated store of B changes nothing. */
  lemma ExampleStores(t: TableState)
    ensures t.edgeRows == [] ==> Store(t, Some(EvB)).edgeRows == [RB]
    ensures t.edgeRows == [RB] ==> Store(t, Some(EvC)).edgeRows == [RB, RC]
    ensures t.edgeRows == [RB, RC] ==> Store(t, Some(EvD)).edgeRows == [RB, RC, RD]
    ensures t.edgeRows == [RB, RC, RD] ==> Store(t, Some(EvB)).edgeRows == [RB, RC, RD]
  {
  }

  /** A client of DB: after storing B, C, D (and B again), the lookup by
      "m.reference" gives exactly B and C, by "m.reply" exactly D, and an
      unknown type gives the empty list. */
  method TypeFilteredLookup() returns (refs: seq<string>, replies: seq<string>, unknown: seq<string>)
    ensures refs == ["B", "C"] && replies == ["D"] && unknown == []
  {
    var db := new DB();
    ExampleStores(db.State());
    db.StoreRelation(Some(EvB));
    ExampleStores(db.State());
    db.StoreRelation(Some(EvC));
    ExampleStores(db.State());
    db.StoreRelation(Some(EvD));
    ExampleStores(db.State());
    db.StoreRelation(Some(EvB));
    ExampleQueries();
    refs := db.ChildrenForParent("A", "m.reference");
    replies := db.ChildrenForParent("A", "m.reply");
    unknown := db.ChildrenForParent("A", "unknown-type");
  }
}
