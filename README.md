# Event-sourced note engine

A Dafny model of the notes service's event-sourced core. Notes are never
stored as rows. Every change is an immutable event: `NoteCreated`,
`NoteUpdated` or `NoteDeleted`. The current note is rebuilt by folding
those events in order.

The model has three modules:

- `NoteModel` (`notes.dfy`) covers `notes_service/app/models.py`. It holds
  the records (`Event`, `NoteCreate`, `NoteUpdate`) and the projector.
  - `Apply` is one step of the projector.
  - `Load` is the left fold over an event list.
  - The class `NoteAggregate` has a mutable `state` field. Its
    `ApplyEvent` and `LoadFromEvents` methods update that field in place,
    as the Python object does.
  - Applying a `NoteUpdated` whose payload has no `"content"` key raises a
    `KeyError` in the source. The model keeps that path: the result is
    `Raised(state)`, where `state` is the state reached before the failing
    event.
- `EventStore` (`store.dfy`) covers the two store queries of
  `notes_service/app/routes.py`. The collection is a sequence of events in
  the order they were stored.
  - `EventsFor` is `find` followed by `sort("timestamp")`: a filter, then a
    stable insertion sort.
  - `AggregatesFor` is `distinct("aggregate_id", {"user_id": ...})`.
  - The consumer persists an event by appending it to that sequence. The
    lemmas write this as `store + [e]`.
- `NoteRoutes` (`routes.dfy`) covers the HTTP handlers.
  - The `note_events` queue is the class `EventQueue`. `publish_event` is
    its `Publish` method, which appends one message.
  - The command handlers take the store as a value and the queue as an
    object. They may only modify the queue, so the store cannot change.
  - `GetNote` is a pure function. `GetUserNotes` and `GetNoteHistory` are
    methods whose loops build their result lists, as the source's loops
    do. `GetUserNotes` projects each note on a fresh `NoteAggregate`.
  - Replies are `Ok(body)` or `Error(status, detail)`. Statuses are 404
    (no events), 410 (deleted) and 500. A 500 is the `KeyError` reaching
    the client unhandled.
  - The fresh note id (`uuid4`) and the timestamp (`utcnow`) are method
    parameters.

What the handlers and the projector do, as the model states it:

- The handlers check neither the caller nor the note's owner. Any client
  can read, update or delete any note.
- The projector ignores an event of unknown type.
- An update or deletion before any creation is applied like any other.
  An update alone gives the state `{content: c}`.
- `get_note` returns the whole projected state, `user_id` included.
- Update and delete publish even when the note is already deleted.
- The owner written into update and delete events is the user of the
  note's earliest event.

## Model

| member | source | states |
|---|---|---|
| `NoteModel.Apply` | notes_service/app/models.py:24-31 | Only an update without `"content"` raises, and it leaves the state as it was. A creation makes the state exactly the payload plus `user_id`. An update changes only `content`. A deletion sets only `deleted` to true. Any other event type leaves the state unchanged. |
| `NoteModel.Load` | notes_service/app/models.py:33-35 | Loading no events leaves the state unchanged. A log in which every update carries `content` never raises. |
| `NoteModel.LoadSingle` | notes_service/app/models.py:33-35 | Loading one event is applying it. |
| `NoteModel.LoadAppend` | notes_service/app/models.py:33-35 | Loading `xs + ys` is loading `xs`, then, unless that raised, loading `ys` from the state reached. |
| `NoteModel.ApplyTwice` | notes_service/app/models.py:24-31 | Applying any event twice in a row gives the same result as applying it once. This covers updates and deletions. |
| `NoteModel.DuplicateDelivery` | notes_service/app/models.py:33-35 | An event delivered twice in a row, anywhere in the log, gives the same projection as one delivery. |
| `NoteModel.CreatedResets` | notes_service/app/models.py:25-27 | Once the log before a creation loads without raising, the creation discards everything before it. The result equals loading from the empty state. |
| `NoteModel.DeletedPersists` | notes_service/app/models.py:26-31 | A deleted state stays deleted through any run of events that contains no creation. |
| `NoteModel.NoteAggregate.constructor` | notes_service/app/models.py:20-22 | A fresh aggregate keeps the given note id and has an empty state. |
| `NoteModel.NoteAggregate.ApplyEvent` | notes_service/app/models.py:24-31 | The new state and the raised flag are exactly what `Apply` gives for the old state. |
| `NoteModel.NoteAggregate.LoadFromEvents` | notes_service/app/models.py:33-35 | The event-by-event loop ends exactly where the fold `Load` ends from the old state. On a raise, the state is the one before the failing event. |
| `EventStore.Matching` | notes_service/app/routes.py:27-28 | Every selected event has the note's id. Each event with that id is selected as many times as it is stored. |
| `EventStore.SortSorts` | notes_service/app/routes.py:27-28 | Sorting by timestamp gives a non-decreasing sequence that is a permutation of its input. |
| `EventStore.InsertOrdered` | notes_service/app/routes.py:27-28 | Inserting into an ordered sequence keeps it ordered. |
| `EventStore.InsertPermutes` | notes_service/app/routes.py:27-28 | Inserting adds exactly the inserted event. |
| `EventStore.EventsForExactly` | notes_service/app/routes.py:27-28 | A note's events are exactly its stored events, with their multiplicities, in non-decreasing timestamp order. The list is empty exactly when no stored event has the id. |
| `EventStore.FirstIsEarliest` | notes_service/app/routes.py:51-55 | The first event, whose user id becomes the owner, is a stored event of the note. No stored event of the note is earlier. |
| `EventStore.AppendLatest` | notes_service/app/routes.py:27-28 | Persisting an event stamped later than its note's other events (earlier copies of itself aside) puts it last among that note's events. Every other note's events stay the same. |
| `EventStore.MatchingSnoc` | notes_service/app/routes.py:27-28 | One more stored event joins a note's selection exactly when it has the note's id. |
| `EventStore.SortSnoc` | notes_service/app/routes.py:28 | Sorting one more event inserts it into the sorted rest. |
| `EventStore.LatestLast` | notes_service/app/routes.py:28 | An event stamped later than the note's other events goes last when inserted. |
| `EventStore.FirstEvent` | notes_service/app/routes.py:27-28 | Before a note's first event is persisted, it has no events. Afterwards, its events are exactly that one. |
| `EventStore.AppendTwice` | notes_service/app/routes.py:27-28 | An event persisted twice in a row, stamped later than its note's other events, appears twice at the end of the note's events. |
| `EventStore.StampedEarlier` | notes_service/app/routes.py:27-28 | A strict timestamp bound on a note's events holds for every stored event of that note. |
| `EventStore.FreshNoteEvents` | notes_service/app/routes.py:27-28 | A note with no stored events has, afterwards, exactly the events persisted for it, when each was stamped later than the one before. |
| `EventStore.OrderedUnique` | notes_service/app/routes.py:28 | Two timestamp-ordered arrangements of the same events are equal when equal timestamps only belong to equal events. So the order of a timestamp sort does not depend on how it breaks ties. |
| `EventStore.AnySortAgrees` | notes_service/app/routes.py:27-28 | When no two different stored events of a note share a timestamp, every ordered permutation of the note's events is exactly `EventsFor`. |
| `EventStore.AggregatesFor` | notes_service/app/routes.py:30-32 | Returns each aggregate id that has an event with the user's id, and no other. No id appears twice. |
| `NoteRoutes.EventQueue.Publish` | notes_service/app/routes.py:15-25 | Publishing appends exactly the event to the queue's messages. |
| `NoteRoutes.CreatedEvent` | notes_service/app/routes.py:38-45 | The event is a `NoteCreated` of the fresh note by the requesting user, stamped with the given time. Its payload has exactly the keys `title` and `content`. |
| `NoteRoutes.CreatedProjection` | notes_service/app/routes.py:38-45 | From any state, the creation event projects to exactly the title and content sent, with the requesting user as `user_id`, and the result is not deleted. |
| `NoteRoutes.UpdatedEvent` | notes_service/app/routes.py:55-63 | The event is a `NoteUpdated` of the note with the given owner and time. Its payload has exactly the key `content`, so projecting it never raises. |
| `NoteRoutes.UpdatedProjection` | notes_service/app/routes.py:55-63 | From any state, the update event replaces only `content`. |
| `NoteRoutes.DeletedEvent` | notes_service/app/routes.py:73-81 | The event is a `NoteDeleted` of the note with the given owner and time, and its payload is empty. |
| `NoteRoutes.DeletedProjection` | notes_service/app/routes.py:73-81 | From any state, the deletion event sets only `deleted`, and the result counts as deleted. |
| `NoteRoutes.CreateNote` | notes_service/app/routes.py:36-47 | Publishes exactly one `NoteCreated` event and answers with the fresh id it used. The event carries that id, the request's user id, `{title, content}` and the given time. |
| `NoteRoutes.UpdateNote` | notes_service/app/routes.py:49-65 | A note without events gets 404 and nothing is published. Otherwise exactly one `NoteUpdated` event is published, with data `{content}` and the earliest event's user id. The store is a value and is not changed. |
| `NoteRoutes.DeleteNote` | notes_service/app/routes.py:67-83 | A note without events gets 404 and nothing is published. Otherwise exactly one `NoteDeleted` event is published, with empty data and the earliest event's user id. |
| `NoteRoutes.GetNote` | notes_service/app/routes.py:85-97 | 404 exactly when the note has no events. 500 exactly when its projection raises. 410 exactly when the projection is deleted. Otherwise the reply is the projected state. |
| `NoteRoutes.LiveIds` | notes_service/app/routes.py:103-109 | Keeps exactly the ids whose note is live: it has events, projects without raising and is not deleted. Distinct ids stay distinct. |
| `NoteRoutes.Listing` | notes_service/app/routes.py:99-111 | A failed listing is always the 500 of an unhandled `KeyError`. A successful one holds at most one entry per id. |
| `NoteRoutes.ListingOk` | notes_service/app/routes.py:103-108 | The listing succeeds exactly when every listed note projects without raising. |
| `NoteRoutes.ListingRaises` | notes_service/app/routes.py:107-108 | One note whose projection raises turns the whole listing into a 500. |
| `NoteRoutes.ListingStep` | notes_service/app/routes.py:103-110 | One more id skips a note without events, turns the listing into a 500 if the note raises, skips a deleted note, and otherwise appends the note's entry. |
| `NoteRoutes.ListsSnoc` | notes_service/app/routes.py:110 | Appending a note's entry keeps the entries matched, position by position, to their notes. |
| `NoteRoutes.ListingExact` | notes_service/app/routes.py:103-110 | A successful listing holds exactly one entry per live id, in the order of the ids. Each entry is the note id merged under that note's state. |
| `NoteRoutes.LiveIdsSnoc` | notes_service/app/routes.py:103-109 | One more id joins the live ids exactly when its note is live. |
| `NoteRoutes.ListingMembers` | notes_service/app/routes.py:103-110 | Every live note among the ids has its entry in the listing, and every entry comes from such a note. |
| `NoteRoutes.ProjectFresh` | notes_service/app/routes.py:107-108 | Loading a note's events on a fresh aggregate object gives the fold `Load` from the empty state. |
| `NoteRoutes.GetUserNotes` | notes_service/app/routes.py:99-111 | The loop's reply is exactly `Listing` over the user's distinct aggregate ids, 500 included. |
| `NoteRoutes.UserListing` | notes_service/app/routes.py:99-111 | A successful reply lists each live note that has an event with the user's id exactly once, in order, and nothing else. |
| `NoteRoutes.GetNoteHistory` | notes_service/app/routes.py:113-126 | 404 when the note has no events. Otherwise there is one entry per event, in the same order, holding that event's type, timestamp and data, deleted note or not. |
| `NoteRoutes.NotFoundBeforeCreate` | notes_service/app/routes.py:87-89 | A note with no stored event reads as 404. |
| `NoteRoutes.ReadAfterCreate` | test_notes.py:11-28 | Once the creation of a fresh note is persisted, the note reads back as the title and content sent, plus the owner. |
| `NoteRoutes.ReadAfterUpdate` | test_notes.py:30-43 | After an update stamped later than the note's events is persisted, a live note reads back with only its content replaced. |
| `NoteRoutes.DeleteHidesContentNotHistory` | test_notes.py:55-70 | After a deletion stamped later than the note's events is persisted, the note reads as 410. Its events keep every earlier event, with the deletion appended. |
| `NoteRoutes.WellFormedStoreNeverFails` | notes_service/app/models.py:28-29 | A store holding only events that carry the keys the projector reads never makes `GetNote` answer 500. |
| `NoteRoutes.RedeliveryHarmless` | consumer/run.py:33-41 | An event persisted twice in a row, later than its note's other events, appears twice at the end of the note's events. The note projects as after one delivery. |

## Left out

- Publishing details (connection, `queue_declare`, persistent delivery mode, JSON serialisation) are not modelled. Publishing is an append to `EventQueue.messages`.
- The MongoDB client is replaced by a sequence of stored events, and the `_id` field MongoDB adds is left out.
- EventsFor: MongoDB leaves the order of equal timestamps unspecified, and the model keeps them in store order. The lemmas that conclude an exact sequence of events require strictly later timestamps, or identical events. `OrderedUnique` and `AnySortAgrees` show that then every timestamp sort gives the same sequence. When two different events of a note share a timestamp, only the ordering and the multiset of events are promised.
- AggregatesFor: the model returns ids in order of first appearance. MongoDB's `distinct` promises no order, so only membership and the absence of duplicates are stated.
- `uuid4` and `datetime.utcnow` are parameters. Timestamps are integers; the consumer's ISO-8601 parsing is not modelled.
- The consumer (`consumer/run.py`) is not a member. Its net effect, appending the delivered event to the store, is what the lemmas write as `store + [e]`. Acknowledgement and prefetch are not modelled. A message persisted twice in a row is covered by `RedeliveryHarmless`.
- Payload and state values other than strings and booleans (numbers, null, nested objects) are not modelled.
- Python dict aliasing is not modelled. Creating assigns the event's own `data` dict as the state and then adds `user_id` to it, which also changes the event. The model uses values.
- Request-body validation by the web framework (422 replies) and the `/health` route are not modelled: neither holds note logic.
- Concurrency is not modelled: parallel requests, the race between reading the store and publishing, and clock skew between producers.
- The API gateway, the auth service, Consul registration and discovery, and the app-wiring files are not part of this model.
