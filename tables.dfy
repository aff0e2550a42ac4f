/** The semantics the SQL gives the two MSC2836 tables, on values:
    `msc2836_edges` is a sequence of distinct rows (the UNIQUE triple with
    ON CONFLICT DO NOTHING makes an insert a set insertion), `msc2836_nodes`
    is a map keyed by event ID (the PRIMARY KEY with ON CONFLICT DO NOTHING
    makes an insert "only if the key is absent"), and the child query is a
    filter over the edge rows. */
module Tables {
  import opened Events

  /** A node row: the metadata recorded for a child event. */
  datatype Node = Node(originServerTS: Timestamp, roomID: string)

  /** Both tables at one moment. */
  datatype TableState = TableState(edgeRows: seq<Relation>, nodes: map<string, Node>)

  const Empty := TableState([], map[])

  predicate Distinct<T(==)>(s: seq<T>)
  {
    forall i, j :: 0 <= i < j < |s| ==> s[i] != s[j]
  }

  /** The set of child IDs that appear in some edge row. */
  function ChildIDs(rows: seq<Relation>): set<string>
  {
    set e | e in rows :: e.child
  }

  /** What the stored tables always satisfy: no two identical edge rows, no
      empty column in an edge row, and a node row exactly for each event that
      appears as the child of an edge (both are written by the same call). */
  predicate TablesValid(t: TableState)
  {
    && Distinct(t.edgeRows)
    && (forall i :: 0 <= i < |t.edgeRows| ==> WellFormed(t.edgeRows[i]))
    && t.nodes.Keys == ChildIDs(t.edgeRows)
  }

  /** INSERT INTO msc2836_edges ... ON CONFLICT DO NOTHING. */
  function InsertEdge(rows: seq<Relation>, e: Relation): (rows': seq<Relation>)
    ensures forall x :: x in rows' <==> x in rows || x == e
    ensures rows <= rows' && |rows'| <= |rows| + 1
    ensures e in rows ==> rows' == rows
    ensures Distinct(rows) ==> Distinct(rows')
  {
    if e in rows then rows else rows + [e]
  }

  /** INSERT INTO msc2836_nodes ... ON CONFLICT DO NOTHING: first write wins. */
  function InsertNode(nodes: map<string, Node>, id: string, n: Node): (nodes': map<string, Node>)
    ensures nodes'.Keys == nodes.Keys + {id}
    ensures forall k :: k in nodes ==> k in nodes' && nodes'[k] == nodes[k]
    ensures id !in nodes ==> nodes'[id] == n
  {
    if id in nodes then nodes else nodes[id := n]
  }

  /** The node row an event contributes. */
  function NodeOf(ev: Event): Node
  {
    Node(ev.originServerTS, ev.roomID)
  }

  /** StoreRelation on values: when the guard finds no relation nothing
      changes; otherwise the edge insert and the node insert happen as one step. */
  function Store(t: TableState, ev: Option<Event>): (t': TableState)
    ensures !HasRelation(ev) ==> t' == t
  {
    if !HasRelation(ev) then t
    else
      var r := ParentChildEventIDs(ev);
      TableState(InsertEdge(t.edgeRows, r), InsertNode(t.nodes, ev.value.eventID, NodeOf(ev.value)))
  }

  /** SELECT child_event_id FROM msc2836_edges WHERE parent_event_id = $1 AND
      rel_type = $2, collected in scan order. */
  function ChildrenOf(rows: seq<Relation>, parent: string, relType: string): (children: seq<string>)
    ensures |children| <= |rows|
    ensures forall i :: 0 <= i < |children| ==> Relation(parent, children[i], relType) in rows
  {
    if rows == [] then []
    else
      var last := rows[|rows| - 1];
      ChildrenOf(rows[..|rows| - 1], parent, relType)
        + (if last.parent == parent && last.relType == relType then [last.child] else [])
  }

  /** Successive calls of StoreRelation, in the order the writer serialises them. */
  function Replay(t: TableState, evs: seq<Option<Event>>): (t': TableState)
    ensures t.edgeRows <= t'.edgeRows && |t'.edgeRows| <= |t.edgeRows| + |evs|
    ensures t.nodes.Keys <= t'.nodes.Keys
    decreases |evs|
  {
    if evs == [] then t else Replay(Store(t, evs[0]), evs[1..])
  }

  function Repeat<T>(x: T, n: nat): (s: seq<T>)
    ensures |s| == n && forall i :: 0 <= i < n ==> s[i] == x
  {
    if n == 0 then [] else [x] + Repeat(x, n - 1)
  }

  // ---------------------------------------------------------------------
  // A single StoreRelation

  /** A successful StoreRelation adds at most the derived triple to the edges
      and at most a node keyed by the event's ID; nothing else changes. */
  lemma StoreFrame(t: TableState, ev: Option<Event>)
    requires HasRelation(ev)
    ensures var t' := Store(t, ev); var r := ParentChildEventIDs(ev);
      && (forall x :: x in t'.edgeRows <==> x in t.edgeRows || x == r)
      && t.edgeRows <= t'.edgeRows && |t'.edgeRows| <= |t.edgeRows| + 1
      && (r in t.edgeRows ==> t'.edgeRows == t.edgeRows)
      && t'.nodes.Keys == t.nodes.Keys + {ev.value.eventID}
      && (ev.value.eventID !in t.nodes ==>
            t'.nodes[ev.value.eventID] == Node(ev.value.originServerTS, ev.value.roomID))
      && r.child == ev.value.eventID && WellFormed(r)
  {
  }

  /** Node insertion is first-write-wins: an existing node row is never
      overwritten, whatever timestamp or room a later event reports. */
  lemma StoreKeepsNodes(t: TableState, ev: Option<Event>, id: string)
    requires id in t.nodes
    ensures id in Store(t, ev).nodes && Store(t, ev).nodes[id] == t.nodes[id]
  {
  }

  /** Two events with the same ID: the node row holds the first one's metadata. */
  lemma FirstWriteWins(t: TableState, ev1: Event, ev2: Event)
    requires HasRelation(Some(ev1)) && HasRelation(Some(ev2))
    requires ev1.eventID == ev2.eventID && ev1.eventID !in t.nodes
    ensures Store(Store(t, Some(ev1)), Some(ev2)).nodes[ev1.eventID] == NodeOf(ev1)
  {
  }

  /** Storing the same event twice leaves the same tables as storing it once. */
  lemma StoreIdempotent(t: TableState, ev: Option<Event>)
    ensures Store(Store(t, ev), ev) == Store(t, ev)
  {
  }

  /** StoreRelation keeps the tables' invariant. */
  lemma StorePreservesValid(t: TableState, ev: Option<Event>)
    requires TablesValid(t)
    ensures TablesValid(Store(t, ev))
  {
  }

  // ---------------------------------------------------------------------
  // The child query

  /** The query returns exactly the children of the edges whose parent and
      relation type both match. */
  lemma {:induction false} ChildrenOfMembership(rows: seq<Relation>, parent: string, relType: string, c: string)
    ensures c in ChildrenOf(rows, parent, relType) <==> Relation(parent, c, relType) in rows
  {
    if rows != [] {
      var init := rows[..|rows| - 1];
      ChildrenOfMembership(init, parent, relType, c);
      assert rows == init + [rows[|rows| - 1]];
    }
  }

  /** The query returns no duplicates, since edge rows are distinct. */
  lemma {:induction false} ChildrenOfDistinct(rows: seq<Relation>, parent: string, relType: string)
    requires Distinct(rows)
    ensures Distinct(ChildrenOf(rows, parent, relType))
  {
    if rows != [] {
      var init := rows[..|rows| - 1];
      var last := rows[|rows| - 1];
      ChildrenOfDistinct(init, parent, relType);
      if last.parent == parent && last.relType == relType {
        ChildrenOfMembership(init, parent, relType, last.child);
        assert Relation(parent, last.child, relType) == last;
        forall k | 0 <= k < |init| ensures init[k] != last {
          assert init[k] == rows[k];
        }
      }
    }
  }

  /** The query returns one child per matching row: c occurs in the result as
      many times as the edge (parent, c, relType) occurs among the rows. */
  lemma {:induction false} ChildrenOfCount(rows: seq<Relation>, parent: string, relType: string, c: string)
    ensures multiset(ChildrenOf(rows, parent, relType))[c] == multiset(rows)[Relation(parent, c, relType)]
  {
    if rows != [] {
      var init := rows[..|rows| - 1];
      ChildrenOfCount(init, parent, relType, c);
      assert rows == init + [rows[|rows| - 1]];
    }
  }

  /** Nothing matches: the query gives the empty list (not an error). */
  lemma {:induction false} NoMatchGivesEmpty(rows: seq<Relation>, parent: string, relType: string)
    requires forall i :: 0 <= i < |rows| ==> rows[i].parent != parent || rows[i].relType != relType
    ensures ChildrenOf(rows, parent, relType) == []
  {
    if rows != [] {
      NoMatchGivesEmpty(rows[..|rows| - 1], parent, relType);
    }
  }

  /** An empty parent ID or relation type matches no stored edge. */
  lemma EmptyKeyGivesEmpty(t: TableState, parent: string, relType: string)
    requires TablesValid(t)
    requires parent == "" || relType == ""
    ensures ChildrenOf(t.edgeRows, parent, relType) == []
  {
    forall i | 0 <= i < |t.edgeRows| ensures t.edgeRows[i].parent != parent || t.edgeRows[i].relType != relType {
      assert WellFormed(t.edgeRows[i]);
    }
    NoMatchGivesEmpty(t.edgeRows, parent, relType);
  }

  /** Round trip: after storing an event that derives (P, C, R), the query
      for (P, R) contains C. */
  lemma StoreThenQuery(t: TableState, ev: Option<Event>)
    requires HasRelation(ev)
    ensures var r := ParentChildEventIDs(ev);
      r.child in ChildrenOf(Store(t, ev).edgeRows, r.parent, r.relType)
  {
    var r := ParentChildEventIDs(ev);
    ChildrenOfMembership(Store(t, ev).edgeRows, r.parent, r.relType, r.child);
  }

  /** What StoreRelation does to any query's list: the new answer is the old
      one, followed by the derived child when the store adds a new edge row for
      that (parent, relType). */
  lemma StoreQueryResult(t: TableState, ev: Option<Event>, parent: string, relType: string)
    ensures var r := ParentChildEventIDs(ev);
      ChildrenOf(Store(t, ev).edgeRows, parent, relType)
        == ChildrenOf(t.edgeRows, parent, relType)
           + (if HasRelation(ev) && r !in t.edgeRows && r.parent == parent && r.relType == relType
              then [r.child] else [])
  {
    var r := ParentChildEventIDs(ev);
    if HasRelation(ev) && r !in t.edgeRows {
      var rows := t.edgeRows + [r];
      assert Store(t, ev).edgeRows == rows;
      assert rows[..|rows| - 1] == t.edgeRows;
    }
  }

  /** What StoreRelation does to any query's membership: it adds the derived
      child to the query of the derived (parent, relType) and changes no other answer. */
  lemma StoreQueryEffect(t: TableState, ev: Option<Event>, parent: string, relType: string, c: string)
    ensures var r := ParentChildEventIDs(ev);
      c in ChildrenOf(Store(t, ev).edgeRows, parent, relType) <==>
        || c in ChildrenOf(t.edgeRows, parent, relType)
        || (HasRelation(ev) && r == Relation(parent, c, relType))
  {
    ChildrenOfMembership(Store(t, ev).edgeRows, parent, relType, c);
    ChildrenOfMembership(t.edgeRows, parent, relType, c);
  }

  // ---------------------------------------------------------------------
  // Repeated and concurrent StoreRelation calls

  /** The tables already hold everything the event would store. */
  predicate Absorbs(t: TableState, ev: Option<Event>)
  {
    HasRelation(ev) ==> ParentChildEventIDs(ev) in t.edgeRows && ev.value.eventID in t.nodes
  }

  lemma AbsorbedIsNoop(t: TableState, ev: Option<Event>)
    requires Absorbs(t, ev)
    ensures Store(t, ev) == t
  {
  }

  /** A run of events that the tables already absorb changes nothing. */
  lemma {:induction false} ReplayAbsorbed(t: TableState, evs: seq<Option<Event>>)
    requires forall i :: 0 <= i < |evs| ==> Absorbs(t, evs[i])
    ensures Replay(t, evs) == t
  {
    if evs != [] {
      AbsorbedIsNoop(t, evs[0]);
      assert forall i :: 0 <= i < |evs[1..]| ==> Absorbs(t, evs[1..][i]) by {
        forall i | 0 <= i < |evs[1..]| ensures Absorbs(t, evs[1..][i]) {
          assert evs[1..][i] == evs[i + 1];
        }
      }
      ReplayAbsorbed(t, evs[1..]);
    }
  }

  /** Replaying only ever adds rows: edges stay, node rows stay unchanged. */
  lemma {:induction false} ReplayGrows(t: TableState, evs: seq<Option<Event>>)
    ensures t.edgeRows <= Replay(t, evs).edgeRows
    ensures forall k :: k in t.nodes ==> k in Replay(t, evs).nodes && Replay(t, evs).nodes[k] == t.nodes[k]
    decreases |evs|
  {
    if evs != [] {
      ReplayGrows(Store(t, evs[0]), evs[1..]);
    }
  }

  lemma AbsorbsMonotone(t: TableState, u: TableState, ev: Option<Event>)
    requires Absorbs(t, ev)
    requires t.edgeRows <= u.edgeRows && t.nodes.Keys <= u.nodes.Keys
    ensures Absorbs(u, ev)
  {
  }

  /** After a run of StoreRelation calls, the tables absorb every event of the run. */
  lemma {:induction false} ReplayAbsorbsAll(t: TableState, evs: seq<Option<Event>>, i: nat)
    requires i < |evs|
    ensures Absorbs(Replay(t, evs), evs[i])
    decreases |evs|
  {
    var s := Store(t, evs[0]);
    ReplayGrows(s, evs[1..]);
    if i == 0 {
      AbsorbsMonotone(s, Replay(s, evs[1..]), evs[0]);
    } else {
      assert evs[1..][i - 1] == evs[i];
      ReplayAbsorbsAll(s, evs[1..], i - 1);
    }
  }

  /** Replaying a run of events a second time changes nothing. */
  lemma ReplayTwiceIsOnce(t: TableState, evs: seq<Option<Event>>)
    ensures Replay(Replay(t, evs), evs) == Replay(t, evs)
  {
    forall i | 0 <= i < |evs| ensures Absorbs(Replay(t, evs), evs[i]) {
      ReplayAbsorbsAll(t, evs, i);
    }
    ReplayAbsorbed(Replay(t, evs), evs);
  }

  /** N calls (n >= 1), serialised in any order, with the same event converge
      to the tables of one call. */
  lemma RepeatedStoreConverges(t: TableState, ev: Option<Event>, n: nat)
    requires n >= 1
    ensures Replay(t, Repeat(ev, n)) == Store(t, ev)
  {
    var s := Store(t, ev);
    assert Repeat(ev, n)[1..] == Repeat(ev, n - 1);
    assert Absorbs(s, ev);
    ReplayAbsorbed(s, Repeat(ev, n - 1));
  }

  /** Starting from valid tables, those calls leave exactly one row for the derived edge. */
  lemma RepeatedStoreSingleRow(t: TableState, ev: Option<Event>, n: nat)
    requires TablesValid(t) && HasRelation(ev) && n >= 1
    ensures multiset(Replay(t, Repeat(ev, n)).edgeRows)[ParentChildEventIDs(ev)] == 1
  {
    RepeatedStoreConverges(t, ev, n);
    StorePreservesValid(t, ev);
    var rows := Store(t, ev).edgeRows;
    DistinctCount(rows, ParentChildEventIDs(ev));
  }

  /** A run of StoreRelation calls keeps the tables' invariant. */
  lemma {:induction false} ReplayPreservesValid(t: TableState, evs: seq<Option<Event>>)
    requires TablesValid(t)
    ensures TablesValid(Replay(t, evs))
    decreases |evs|
  {
    if evs != [] {
      StorePreservesValid(t, evs[0]);
      ReplayPreservesValid(Store(t, evs[0]), evs[1..]);
    }
  }

  /** Calls deriving the same edge from different events (other timestamps or
      rooms, say), mixed with any other calls, leave exactly one row for it. */
  lemma ReplaySingleRow(t: TableState, evs: seq<Option<Event>>, i: nat)
    requires TablesValid(t) && i < |evs| && HasRelation(evs[i])
    ensures multiset(Replay(t, evs).edgeRows)[ParentChildEventIDs(evs[i])] == 1
  {
    ReplayPreservesValid(t, evs);
    ReplayAbsorbsAll(t, evs, i);
    DistinctCount(Replay(t, evs).edgeRows, ParentChildEventIDs(evs[i]));
  }

  lemma {:induction false} DistinctCount<T>(s: seq<T>, x: T)
    requires Distinct(s) && x in s
    ensures multiset(s)[x] == 1
  {
    var init := s[..|s| - 1];
    var last := s[|s| - 1];
    assert s == init + [last];
    assert Distinct(init);
    if x == last {
      forall k | 0 <= k < |init| ensures init[k] != x {
        assert init[k] == s[k];
      }
      assert multiset(init)[x] == 0;
    } else {
      DistinctCount(init, x);
    }
  }

  /** The first event of a run that stores a node for `id` decides its row. */
  lemma {:induction false} ReplayFirstWriteWins(t: TableState, evs: seq<Option<Event>>, i: nat, id: string)
    requires id !in t.nodes
    requires i < |evs| && HasRelation(evs[i]) && evs[i].value.eventID == id
    requires forall j :: 0 <= j < i ==> !HasRelation(evs[j]) || evs[j].value.eventID != id
    ensures id in Replay(t, evs).nodes && Replay(t, evs).nodes[id] == NodeOf(evs[i].value)
    decreases |evs|
  {
    var s := Store(t, evs[0]);
    if i == 0 {
      ReplayGrows(s, evs[1..]);
    } else {
      assert id !in s.nodes;
      forall j | 0 <= j < i - 1 ensures !HasRelation(evs[1..][j]) || evs[1..][j].value.eventID != id {
        assert evs[1..][j] == evs[j + 1];
      }
      assert evs[1..][i - 1] == evs[i];
      ReplayFirstWriteWins(s, evs[1..], i - 1, id);
    }
  }
}
