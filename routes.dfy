/** The HTTP handlers of the notes service. Commands read the event store
    and publish one event to the "note_events" queue; they never write to
    the store. Queries read the store and project it. The store is the
    sequence of persisted events; persisting an event appends it. */
module NoteRoutes {
  import opened NoteModel
  import opened EventStore

  /** A handler's answer: a JSON body, or an HTTP error status with its
      detail. A KeyError while projecting reaches the client as a 500. */
  datatype Reply<T> = Ok(body: T) | Error(status: nat, detail: string)

  const NotFoundDetail: string := "Note not found"
  const GoneDetail: string := "Note was deleted"
  const ServerErrorDetail: string := "Internal Server Error"

  datatype CreateReply = CreateReply(noteId: string, message: string)
  datatype HistoryEntry = HistoryEntry(eventType: string, timestamp: int, data: Doc)
  datatype NoteHistory = NoteHistory(noteId: string, history: seq<HistoryEntry>)

  /** The durable "note_events" queue, as the messages published to it. */
  class EventQueue {
    var messages: seq<Event>

    constructor ()
      ensures messages == []
    {
      messages := [];
    }

    /** Publishes one event. */
    method Publish(e: Event)
      modifies this
      ensures messages == old(messages) + [e]
    {
      messages := messages + [e];
    }
  }

  /** The event `create_note` builds: a creation of the fresh note by the
      requesting user, carrying exactly the title and content. */
  function CreatedEvent(note: NoteCreate, noteId: string, now: int): (e: Event)
    ensures e.aggregateId == noteId && e.userId == note.userId && e.eventType == NoteCreated && e.timestamp == now
    ensures e.data.Keys == {"title", "content"}
  {
    Event(noteId, note.userId, NoteCreated, now, map["title" := Str(note.title), "content" := Str(note.content)])
  }

  /** The event `update_note` builds: an update of the note carrying only
      the new content. */
  function UpdatedEvent(noteId: string, owner: string, content: string, now: int): (e: Event)
    ensures e.aggregateId == noteId && e.userId == owner && e.eventType == NoteUpdated && e.timestamp == now
    ensures e.data.Keys == {"content"} && WellFormed(e)
  {
    Event(noteId, owner, NoteUpdated, now, map["content" := Str(content)])
  }

  /** The event `delete_note` builds: a deletion of the note with no
      payload. */
  function DeletedEvent(noteId: string, owner: string, now: int): (e: Event)
    ensures e.aggregateId == noteId && e.userId == owner && e.eventType == NoteDeleted && e.timestamp == now
    ensures e.data == map[]
  {
    Event(noteId, owner, NoteDeleted, now, map[])
  }

  /** From any state, a created event projects to the title and content
      sent, with the requesting user as owner, and not deleted. */
  lemma CreatedProjection(note: NoteCreate, noteId: string, now: int, s: Doc)
    ensures Apply(s, CreatedEvent(note, noteId, now)) ==
      Applied(map["title" := Str(note.title), "content" := Str(note.content), "user_id" := Str(note.userId)])
    ensures !IsDeleted(Apply(s, CreatedEvent(note, noteId, now)).state)
  {
    KeysDistinct();
  }

  /** From any state, an update event replaces only the content. */
  lemma UpdatedProjection(noteId: string, owner: string, content: string, now: int, s: Doc)
    ensures Apply(s, UpdatedEvent(noteId, owner, content, now)) == Applied(s["content" := Str(content)])
  {
  }

  /** From any state, a deletion event sets only the deleted flag, and the
      result counts as deleted. */
  lemma DeletedProjection(noteId: string, owner: string, now: int, s: Doc)
    ensures Apply(s, DeletedEvent(noteId, owner, now)) == Applied(s["deleted" := Flag(true)])
    ensures IsDeleted(Apply(s, DeletedEvent(noteId, owner, now)).state)
  {
  }

  /** Projection of a note from a fresh aggregate. */
  function Projected(store: seq<Event>, noteId: string): Replay
  {
    Load(map[], EventsFor(store, noteId))
  }

  /** The note exists, projects without raising and is not deleted. */
  predicate Live(store: seq<Event>, noteId: string)
  {
    EventsFor(store, noteId) != [] && Projected(store, noteId).Applied? && !IsDeleted(Projected(store, noteId).state)
  }

  /** `POST /notes`: publishes a creation under the fresh id `freshId`,
      stamped `now`, and answers with that id. */
  method CreateNote(queue: EventQueue, note: NoteCreate, freshId: string, now: int) returns (reply: CreateReply)
    modifies queue
    ensures queue.messages == old(queue.messages) + [CreatedEvent(note, freshId, now)]
    ensures reply == CreateReply(freshId, "Note created.")
  {
    var event := CreatedEvent(note, freshId, now);
    queue.Publish(event);
    reply := CreateReply(freshId, "Note created.");
  }

  /** `PUT /notes/{note_id}`: 404 and nothing published for a note without
      events; otherwise publishes one update owned by the user of the
      note's earliest event. */
  method UpdateNote(store: seq<Event>, queue: EventQueue, noteId: string, update: NoteUpdate, now: int)
    returns (reply: Reply<string>)
    modifies queue
    ensures EventsFor(store, noteId) == [] ==>
      reply == Error(404, NotFoundDetail) && queue.messages == old(queue.messages)
    ensures EventsFor(store, noteId) != [] ==>
      && reply == Ok("Note update requested.")
      && queue.messages == old(queue.messages) + [UpdatedEvent(noteId, EventsFor(store, noteId)[0].userId, update.content, now)]
  {
    var events := EventsFor(store, noteId);
    if events == [] {
      return Error(404, NotFoundDetail);
    }
    var owner := events[0].userId;
    queue.Publish(UpdatedEvent(noteId, owner, update.content, now));
    reply := Ok("Note update requested.");
  }

  /** `DELETE /notes/{note_id}`: 404 and nothing published for a note
      without events; otherwise publishes one deletion owned by the user
      of the note's earliest event. */
  method DeleteNote(store: seq<Event>, queue: EventQueue, noteId: string, now: int) returns (reply: Reply<string>)
    modifies queue
    ensures EventsFor(store, noteId) == [] ==>
      reply == Error(404, NotFoundDetail) && queue.messages == old(queue.messages)
    ensures EventsFor(store, noteId) != [] ==>
      && reply == Ok("Note delete requested.")
      && queue.messages == old(queue.messages) + [DeletedEvent(noteId, EventsFor(store, noteId)[0].userId, now)]
  {
    var events := EventsFor(store, noteId);
    if events == [] {
      return Error(404, NotFoundDetail);
    }
    var owner := events[0].userId;
    queue.Publish(DeletedEvent(noteId, owner, now));
    reply := Ok("Note delete requested.");
  }

  /** `GET /notes/{note_id}`. */
  function GetNote(store: seq<Event>, noteId: string): (r: Reply<Doc>)
    ensures r == Error(404, NotFoundDetail) <==> EventsFor(store, noteId) == []
    ensures r == Error(410, GoneDetail) <==>
      EventsFor(store, noteId) != [] && Projected(store, noteId).Applied? && IsDeleted(Projected(store, noteId).state)
    ensures r == Error(500, ServerErrorDetail) <==> Projected(store, noteId).Raised?
    ensures r.Ok? <==> Live(store, noteId)
    ensures r.Ok? ==> Projected(store, noteId) == Applied(r.body)
  {
    var events := EventsFor(store, noteId);
    if events == [] then Error(404, NotFoundDetail)
    else
      match Load(map[], events)
      case Raised(_) => Error(500, ServerErrorDetail)
      case Applied(s) => if IsDeleted(s) then Error(410, GoneDetail) else Ok(s)
  }

  /** A listed note: its id merged under its projected state, so a
      "note_id" key of the state wins. */
  function Entry(noteId: string, s: Doc): Doc
  {
    map["note_id" := Str(noteId)] + s
  }

  /** The ids among `ids` whose note is live, in the order of `ids`. */
  function LiveIds(store: seq<Event>, ids: seq<string>): (r: seq<string>)
    ensures forall id :: id in r <==> id in ids && Live(store, id)
    ensures Distinct(ids) ==> Distinct(r)
    decreases |ids|
  {
    if ids == [] then []
    else
      var prefix, id := ids[..|ids| - 1], ids[|ids| - 1];
      SplitLast(ids);
      assert forall x | x in prefix :: x in ids;
      assert Distinct(ids) ==> Distinct(prefix) && id !in prefix by {
        if Distinct(ids) {
          forall i, j | 0 <= i < j < |prefix| ensures prefix[i] != prefix[j] {
            assert prefix[i] == ids[i] && prefix[j] == ids[j];
          }
          forall i | 0 <= i < |prefix| ensures prefix[i] != id {
            assert prefix[i] == ids[i];
          }
        }
      }
      if Live(store, id) then LiveIds(store, prefix) + [id] else LiveIds(store, prefix)
  }

  /** The listing `get_user_notes` builds over `ids`: a 500 as soon as
      one note raises; otherwise exactly one entry per live note among
      them, in the order of `ids`. */
  function Listing(store: seq<Event>, ids: seq<string>): (r: Reply<seq<Doc>>)
    ensures r.Error? ==> r == Error(500, ServerErrorDetail)
    ensures r.Ok? ==> |r.body| <= |ids|
    decreases |ids|
  {
    if ids == [] then Ok([])
    else
      var prefix, id := ids[..|ids| - 1], ids[|ids| - 1];
      match Listing(store, prefix)
      case Error(status, detail) => Error(status, detail)
      case Ok(notes) =>
        if EventsFor(store, id) == [] then Ok(notes)
        else
          match Load(map[], EventsFor(store, id))
          case Raised(_) => Error(500, ServerErrorDetail)
          case Applied(s) => if IsDeleted(s) then Ok(notes) else Ok(notes + [Entry(id, s)])
  }

  /** A listing fails exactly when one of its notes raises. */
  lemma {:induction false} ListingOk(store: seq<Event>, ids: seq<string>)
    ensures Listing(store, ids).Ok? <==> forall id | id in ids :: Projected(store, id).Applied?
    decreases |ids|
  {
    if ids != [] {
      var prefix, id := ids[..|ids| - 1], ids[|ids| - 1];
      SplitLast(ids);
      ListingOk(store, prefix);
      if Listing(store, prefix).Error? {
        assert Listing(store, ids) == Listing(store, prefix);
        var x :| x in prefix && !Projected(store, x).Applied?;
        assert x in ids;
      } else {
        ListingStep(store, prefix, id, Listing(store, prefix).body);
        assert forall x | x in ids :: x in prefix || x == id;
        if EventsFor(store, id) == [] {
          assert Projected(store, id) == Applied(map[]);
        }
      }
    }
  }

  /** A listing fails as soon as one of its notes raises. */
  lemma ListingRaises(store: seq<Event>, ids: seq<string>, k: nat)
    requires k < |ids| && Projected(store, ids[k]).Raised?
    ensures Listing(store, ids) == Error(500, ServerErrorDetail)
  {
    ListingOk(store, ids);
  }

  /** `body` holds, position by position, the entry of each note of
      `live`. */
  ghost predicate Lists(store: seq<Event>, live: seq<string>, body: seq<Doc>)
  {
    && |body| == |live|
    && forall i | 0 <= i < |live| :: body[i] == Entry(live[i], Projected(store, live[i]).state)
  }

  /** Listing one more note appends its entry. */
  lemma ListsSnoc(store: seq<Event>, live: seq<string>, body: seq<Doc>, id: string)
    requires Lists(store, live, body)
    ensures Lists(store, live + [id], body + [Entry(id, Projected(store, id).state)])
  {
    var body', live' := body + [Entry(id, Projected(store, id).state)], live + [id];
    forall i | 0 <= i < |live'|
      ensures body'[i] == Entry(live'[i], Projected(store, live'[i]).state)
    {
      if i < |live| {
        assert body'[i] == body[i] && live'[i] == live[i];
      }
    }
  }

  /** A successful listing holds exactly one entry per live id, in the
      order of `ids`. */
  lemma {:induction false} ListingExact(store: seq<Event>, ids: seq<string>)
    requires Listing(store, ids).Ok?
    ensures Lists(store, LiveIds(store, ids), Listing(store, ids).body)
    decreases |ids|
  {
    if ids != [] {
      var prefix, id := ids[..|ids| - 1], ids[|ids| - 1];
      SplitLast(ids);
      assert Listing(store, prefix).Ok?;
      var notes := Listing(store, prefix).body;
      ListingStep(store, prefix, id, notes);
      LiveIdsSnoc(store, prefix, id);
      ListingExact(store, prefix);
      if Live(store, id) {
        ListsSnoc(store, LiveIds(store, prefix), notes, id);
      }
    }
  }

  /** One more id joins the live ids exactly when its note is live. */
  lemma LiveIdsSnoc(store: seq<Event>, ids: seq<string>, id: string)
    ensures LiveIds(store, ids + [id]) == if Live(store, id) then LiveIds(store, ids) + [id] else LiveIds(store, ids)
  {
    assert (ids + [id])[..|ids|] == ids;
  }

  /** Every live note among `ids` is listed, and every entry is one. */
  lemma ListingMembers(store: seq<Event>, ids: seq<string>)
    requires Listing(store, ids).Ok?
    ensures forall id | id in ids && Live(store, id) :: Entry(id, Projected(store, id).state) in Listing(store, ids).body
    ensures forall n | n in Listing(store, ids).body ::
      exists id | id in ids :: Live(store, id) && n == Entry(id, Projected(store, id).state)
  {
    var body, live := Listing(store, ids).body, LiveIds(store, ids);
    ListingExact(store, ids);
    forall id | id in ids && Live(store, id) ensures Entry(id, Projected(store, id).state) in body {
      var i :| 0 <= i < |live| && live[i] == id;
      assert body[i] == Entry(id, Projected(store, id).state);
    }
    forall n | n in body ensures exists id | id in ids :: Live(store, id) && n == Entry(id, Projected(store, id).state) {
      var i :| 0 <= i < |body| && body[i] == n;
      assert live[i] in live;
    }
  }

  /** `body` lists each live note that has an event with the user's id
      exactly once, and nothing else. */
  ghost predicate ListsUserNotes(store: seq<Event>, userId: string, body: seq<Doc>)
  {
    var live := LiveIds(store, AggregatesFor(store, userId));
    && Distinct(live)
    && (forall id :: id in live <==> Live(store, id) && exists e | e in store :: e.userId == userId && e.aggregateId == id)
    && Lists(store, live, body)
  }

  /** The listing over the user's aggregate ids lists each live note of
      the user exactly once. */
  lemma UserListing(store: seq<Event>, userId: string)
    requires Listing(store, AggregatesFor(store, userId)).Ok?
    ensures ListsUserNotes(store, userId, Listing(store, AggregatesFor(store, userId)).body)
  {
    ListingExact(store, AggregatesFor(store, userId));
  }

  /** Projects a note's events on a fresh aggregate object, as both read
      handlers do. */
  method ProjectFresh(noteId: string, events: seq<Event>) returns (r: Replay)
    ensures r == Load(map[], events)
  {
    var aggregate := new NoteAggregate(noteId);
    var raised := aggregate.LoadFromEvents(events);
    r := if raised then Raised(aggregate.state) else Applied(aggregate.state);
  }

  /** One more id extends a successful listing by its entry when its note
      is live, turns it into a 500 when the note raises, and otherwise
      leaves it as it was. */
  lemma ListingStep(store: seq<Event>, ids: seq<string>, id: string, notes: seq<Doc>)
    requires Listing(store, ids) == Ok(notes)
    ensures Listing(store, ids + [id]) ==
      if EventsFor(store, id) == [] then Ok(notes)
      else if Projected(store, id).Raised? then Error(500, ServerErrorDetail)
      else if IsDeleted(Projected(store, id).state) then Ok(notes)
      else Ok(notes + [Entry(id, Projected(store, id).state)])
  {
    assert (ids + [id])[..|ids|] == ids;
  }

  /** `GET /users/{user_id}/notes`: projects every aggregate of the user
      on a fresh aggregate object and lists the ones not deleted. */
  method GetUserNotes(store: seq<Event>, userId: string) returns (reply: Reply<seq<Doc>>)
    ensures reply == Listing(store, AggregatesFor(store, userId))
  {
    var noteIds := AggregatesFor(store, userId);
    var notes: seq<Doc> := [];
    var i := 0;
    while i < |noteIds|
      invariant 0 <= i <= |noteIds|
      invariant Listing(store, noteIds[..i]) == Ok(notes)
    {
      var noteId := noteIds[i];
      TakeSnoc(noteIds, i);
      ListingStep(store, noteIds[..i], noteId, notes);
      var events := EventsFor(store, noteId);
      if events == [] {
        i := i + 1;
        continue;
      }
      var projection := ProjectFresh(noteId, events);
      if projection.Raised? {
        ListingRaises(store, noteIds, i);
        return Error(500, ServerErrorDetail);
      }
      if !IsDeleted(projection.state) {
        notes := notes + [Entry(noteId, projection.state)];
      }
      i := i + 1;
    }
    TakeAll(noteIds);
    reply := Ok(notes);
  }

  /** What the history keeps of an event. */
  function HistoryEntryOf(e: Event): HistoryEntry
  {
    HistoryEntry(e.eventType, e.timestamp, e.data)
  }

  /** `GET /notes/{note_id}/history`: 404 for a note without events;
      otherwise one entry per event, in the same order, deleted or not. */
  method GetNoteHistory(store: seq<Event>, noteId: string) returns (reply: Reply<NoteHistory>)
    ensures var events := EventsFor(store, noteId);
      if events == [] then reply == Error(404, NotFoundDetail)
      else
        && reply.Ok?
        && reply.body.noteId == noteId
        && |reply.body.history| == |events|
        && forall i | 0 <= i < |events| :: reply.body.history[i] == HistoryEntryOf(events[i])
  {
    var events := EventsFor(store, noteId);
    if events == [] {
      return Error(404, NotFoundDetail);
    }
    var history: seq<HistoryEntry> := [];
    for i := 0 to |events|
      invariant |history| == i
      invariant forall k | 0 <= k < i :: history[k] == HistoryEntryOf(events[k])
    {
      history := history + [HistoryEntryOf(events[i])];
    }
    reply := Ok(NoteHistory(noteId, history));
  }

  /** A note with no stored event is not found. */
  lemma NotFoundBeforeCreate(store: seq<Event>, noteId: string)
    requires forall e | e in store :: e.aggregateId != noteId
    ensures GetNote(store, noteId) == Error(404, NotFoundDetail)
  {
    EventsForExactly(store, noteId);
  }

  /** Once the creation of a fresh note is persisted, the note reads back
      as the title and content sent, with the owner. */
  lemma ReadAfterCreate(store: seq<Event>, note: NoteCreate, noteId: string, now: int)
    requires forall e | e in store :: e.aggregateId != noteId
    ensures GetNote(store + [CreatedEvent(note, noteId, now)], noteId) ==
      Ok(map["title" := Str(note.title), "content" := Str(note.content), "user_id" := Str(note.userId)])
  {
    var c := CreatedEvent(note, noteId, now);
    FirstEvent(store, c);
    LoadSingle(map[], c);
    CreatedProjection(note, noteId, now, map[]);
  }


  /** Once an update stamped later than the note's events is
      persisted, a live note reads back with only its content replaced. */
  lemma ReadAfterUpdate(store: seq<Event>, noteId: string, owner: string, content: string, now: int)
    requires Live(store, noteId)
    requires forall x | x in store && x.aggregateId == noteId :: x.timestamp < now
    ensures GetNote(store + [UpdatedEvent(noteId, owner, content, now)], noteId) ==
      Ok(Projected(store, noteId).state["content" := Str(content)])
  {
    var u := UpdatedEvent(noteId, owner, content, now);
    AppendLatest(store, u, noteId);
    LoadAppend(map[], EventsFor(store, noteId), [u]);
    LoadSingle(Projected(store, noteId).state, u);
    UpdatedProjection(noteId, owner, content, now, Projected(store, noteId).state);
    KeysDistinct();
  }

  /** Once a deletion stamped later than the note's events is
      persisted, the note reads as gone, while its events, and so its
      history, keep everything before plus the deletion. */
  lemma DeleteHidesContentNotHistory(store: seq<Event>, noteId: string, owner: string, now: int)
    requires EventsFor(store, noteId) != [] && Projected(store, noteId).Applied?
    requires forall x | x in store && x.aggregateId == noteId :: x.timestamp < now
    ensures GetNote(store + [DeletedEvent(noteId, owner, now)], noteId) == Error(410, GoneDetail)
    ensures EventsFor(store + [DeletedEvent(noteId, owner, now)], noteId) == EventsFor(store, noteId) + [DeletedEvent(noteId, owner, now)]
  {
    var d := DeletedEvent(noteId, owner, now);
    AppendLatest(store, d, noteId);
    LoadAppend(map[], EventsFor(store, noteId), [d]);
    LoadSingle(Projected(store, noteId).state, d);
    DeletedProjection(noteId, owner, now, Projected(store, noteId).state);
  }

  /** A store holding only events such as the handlers publish never makes
      a read fail with a 500. */
  lemma WellFormedStoreNeverFails(store: seq<Event>, noteId: string)
    requires forall e | e in store :: WellFormed(e)
    ensures GetNote(store, noteId) != Error(500, ServerErrorDetail)
  {
    var events := EventsFor(store, noteId);
    EventsForExactly(store, noteId);
    forall i | 0 <= i < |events| ensures WellFormed(events[i]) {
      assert events[i] in multiset(events);
      assert events[i] in multiset(store);
    }
  }

  /** A persisted event that the broker delivers twice in a row, later
      than the note's other events, lands twice at the end of the note's
      events and leaves the note's projection as one delivery does. */
  lemma RedeliveryHarmless(store: seq<Event>, e: Event)
    requires forall x | x in store && x.aggregateId == e.aggregateId :: x.timestamp < e.timestamp
    ensures EventsFor(store + [e, e], e.aggregateId) == EventsFor(store, e.aggregateId) + [e, e]
    ensures Projected(store + [e, e], e.aggregateId) == Projected(store + [e], e.aggregateId)
  {
    var id := e.aggregateId;
    AppendTwice(store, e);
    var before := EventsFor(store, id);
    assert Load(map[], before + [e, e]) == Load(map[], before + [e]) by {
      DuplicateDelivery(map[], before, e, []);
      assert before + [e, e] + [] == before + [e, e];
      assert before + [e] + [] == before + [e];
    }
    assert EventsFor(store + [e], id) == before + [e] by {
      AppendLatest(store, e, id);
    }
  }
}
