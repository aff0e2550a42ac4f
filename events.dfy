/** The event records that the MSC2836 relationship store is handed, and the
    extraction of a (parent, child, relType) triple from an event's content. */
module Events {

  datatype Option<+T> = None | Some(value: T)

  /** The value of an optional JSON string field: an absent or null field
      decodes to Go's zero value, the empty string. */
  function FieldValue(f: Option<string>): string
  {
    match f
    case None => ""
    case Some(s) => s
  }

  /** An origin server timestamp, milliseconds since the epoch (unsigned 64 bits). */
  newtype Timestamp = x: int | 0 <= x < 0x1_0000_0000_0000_0000

  /** The event's content as seen through the `m.relationship` decoding target:
      either the JSON does not decode into it, or it decodes and each of the two
      fields `rel_type` and `event_id` is present or absent. */
  datatype Content =
    | Unparsable
    | Parsed(relType: Option<string>, eventID: Option<string>)

  /** The accessors of an event that the store uses. */
  datatype Event = Event(eventID: string, roomID: string, originServerTS: Timestamp, content: Content)

  /** A (parent, child, relType) triple; the all-empty triple means "no relation". */
  datatype Relation = Relation(parent: string, child: string, relType: string)

  const NoRelation := Relation("", "", "")

  /** The event's content declares a relationship: it decodes and both
      `m.relationship` fields are non-empty. */
  predicate DeclaresRelationship(ev: Event)
  {
    && ev.content.Parsed?
    && FieldValue(ev.content.eventID) != ""
    && FieldValue(ev.content.relType) != ""
  }

  /** The triple an event contributes to the relationship graph. A nil event
      (`None`), content that does not decode, and an empty `event_id` or
      `rel_type` all give the all-empty triple. No self-reference check is made. */
  function ParentChildEventIDs(ev: Option<Event>): (r: Relation)
    ensures ev.None? ==> r == NoRelation
    // the decode-failure path: content that does not decode gives no relation
    ensures ev.Some? && ev.value.content.Unparsable? ==> r == NoRelation
    ensures ev.Some? && !DeclaresRelationship(ev.value) ==> r == NoRelation
    ensures ev.Some? && DeclaresRelationship(ev.value) ==>
              && r.parent == FieldValue(ev.value.content.eventID) != ""
              && r.relType == FieldValue(ev.value.content.relType) != ""
              && r.child == ev.value.eventID
    // the parent and the relation type are found or missing together
    ensures (r.parent == "") <==> (r.relType == "")
    ensures r.parent == "" ==> r == NoRelation
  {
    if ev.None? then NoRelation
    else if ev.value.content.Unparsable? then NoRelation
    else if FieldValue(ev.value.content.eventID) == "" || FieldValue(ev.value.content.relType) == "" then NoRelation
    else Relation(FieldValue(ev.value.content.eventID), ev.value.eventID, FieldValue(ev.value.content.relType))
  }

  /** The guard of StoreRelation: a relation is stored only when the extracted
      parent and child are both non-empty. */
  predicate HasRelation(ev: Option<Event>)
    ensures HasRelation(ev) <==> ev.Some? && DeclaresRelationship(ev.value) && ev.value.eventID != ""
  {
    var r := ParentChildEventIDs(ev);
    r.parent != "" && r.child != ""
  }

  /** An edge row satisfies this: all three columns are non-empty. */
  predicate WellFormed(e: Relation)
  {
    e.parent != "" && e.child != "" && e.relType != ""
  }

  /** Whenever the store's guard lets a relation through, the triple has no
      empty field, its child is the event's own ID, and it comes from the content. */
  lemma StoredRelationIsWellFormed(ev: Option<Event>)
    requires HasRelation(ev)
    ensures ev.Some? && DeclaresRelationship(ev.value)
    ensures WellFormed(ParentChildEventIDs(ev))
    ensures ParentChildEventIDs(ev).child == ev.value.eventID
  {
  }

  /** An event whose own ID is empty yields a triple with an empty child, which
      is not the all-empty triple when the content declares a relationship; the
      guard then rejects it. */
  lemma EmptyEventIDHasNoRelation(ev: Event)
    requires ev.eventID == ""
    ensures ParentChildEventIDs(Some(ev)).child == ""
    ensures DeclaresRelationship(ev) ==>
              ParentChildEventIDs(Some(ev))
                == Relation(FieldValue(ev.content.eventID), "", FieldValue(ev.content.relType))
                != NoRelation
    ensures !HasRelation(Some(ev))
  {
  }

  /** The extraction does not reject a relation from an event to itself. */
  lemma SelfReferenceIsKept(id: string, room: string, ts: Timestamp, relType: string)
    requires id != "" && relType != ""
    ensures HasRelation(Some(Event(id, room, ts, Parsed(Some(relType), Some(id)))))
    ensures ParentChildEventIDs(Some(Event(id, room, ts, Parsed(Some(relType), Some(id))))) == Relation(id, id, relType)
  {
  }
}
