/** The note records and the aggregate projector of the notes service:
    events are folded, one at a time and in list order, into the current
    state of one note. */
module NoteModel {

  /** A JSON value held in an event payload or in a projected note.
      Only strings and booleans are modelled. */
  datatype Value = Str(text: string) | Flag(flag: bool)

  /** A string-keyed dictionary: both an event's `data` and the projected
      state of a note have this shape. */
  type Doc = map<string, Value>

  /** Python truthiness of a value, as used by `state.get("deleted")`. */
  predicate Truthy(v: Value)
  {
    match v
    case Str(t) => t != ""
    case Flag(b) => b
  }

  /** An immutable fact about one note. The timestamp is a point in time
      as a count of ticks. */
  datatype Event = Event(aggregateId: string, userId: string, eventType: string, timestamp: int, data: Doc)

  /** The body of a create request. */
  datatype NoteCreate = NoteCreate(userId: string, title: string, content: string)

  /** The body of an update request. */
  datatype NoteUpdate = NoteUpdate(content: string)

  const NoteCreated: string := "NoteCreated"
  const NoteUpdated: string := "NoteUpdated"
  const NoteDeleted: string := "NoteDeleted"

  /** The projection counts as deleted when its "deleted" entry is truthy. */
  predicate IsDeleted(s: Doc)
  {
    "deleted" in s && Truthy(s["deleted"])
  }

  /** Applying an event can only fail on an update whose payload has no
      "content" key: reading it raises a KeyError. */
  predicate WellFormed(e: Event)
  {
    e.eventType == NoteUpdated ==> "content" in e.data
  }

  /** The keys the projector writes are distinct from one another. */
  lemma KeysDistinct()
    ensures "deleted" !in {"title", "content", "user_id"}
    ensures "content" != "user_id"
  {
    assert "deleted"[0] == 'd' && "title"[0] == 't' && "content"[0] == 'c' && "user_id"[0] == 'u';
  }

  /** The outcome of applying events: either every event was applied, or a
      KeyError was raised, and `state` is what the aggregate held then. */
  datatype Replay = Applied(state: Doc) | Raised(state: Doc)

  /** One step of the projector. */
  function Apply(s: Doc, e: Event): (r: Replay)
    // only an update without content fails, and then nothing changes
    ensures r.Raised? <==> !WellFormed(e)
    ensures r.Raised? ==> r.state == s
    // a creation replaces the state by the payload plus the owner
    ensures e.eventType == NoteCreated ==>
      && r.state.Keys == e.data.Keys + {"user_id"}
      && r.state["user_id"] == Str(e.userId)
      && forall k | k in e.data && k != "user_id" :: r.state[k] == e.data[k]
    // an update changes only "content"
    ensures e.eventType == NoteUpdated && r.Applied? ==>
      && r.state.Keys == s.Keys + {"content"}
      && r.state["content"] == e.data["content"]
      && forall k | k in s && k != "content" :: r.state[k] == s[k]
    // a deletion sets only "deleted"
    ensures e.eventType == NoteDeleted ==>
      && r.state.Keys == s.Keys + {"deleted"}
      && r.state["deleted"] == Flag(true)
      && forall k | k in s && k != "deleted" :: r.state[k] == s[k]
    // any other event type is ignored
    ensures e.eventType !in {NoteCreated, NoteUpdated, NoteDeleted} ==> r == Applied(s)
  {
    if e.eventType == NoteCreated then
      Applied(e.data["user_id" := Str(e.userId)])
    else if e.eventType == NoteUpdated then
      if "content" in e.data then Applied(s["content" := e.data["content"]]) else Raised(s)
    else if e.eventType == NoteDeleted then
      Applied(s["deleted" := Flag(true)])
    else
      Applied(s)
  }

  /** The projector: a left fold of Apply over the events in list order,
      stopping at the first event that raises. */
  function Load(s: Doc, events: seq<Event>): (r: Replay)
    ensures events == [] ==> r == Applied(s)
    ensures (forall i | 0 <= i < |events| :: WellFormed(events[i])) ==> r.Applied?
    decreases |events|
  {
    if events == [] then Applied(s)
    else
      match Apply(s, events[0])
      case Raised(t) => Raised(t)
      case Applied(t) => Load(t, events[1..])
  }

  /** Loading one event is applying it. */
  lemma LoadSingle(s: Doc, e: Event)
    ensures Load(s, [e]) == Apply(s, e)
  {
    assert [e][1..] == [];
  }

  /** Loading `xs + ys` is loading `xs` and then, unless that raised,
      loading `ys` from where it stopped. */
  lemma {:induction false} LoadAppend(s: Doc, xs: seq<Event>, ys: seq<Event>)
    ensures Load(s, xs + ys) ==
      if Load(s, xs).Raised? then Load(s, xs) else Load(Load(s, xs).state, ys)
    decreases |xs|
  {
    if xs == [] {
      assert xs + ys == ys;
    } else {
      assert (xs + ys)[0] == xs[0];
      assert (xs + ys)[1..] == xs[1..] + ys;
      match Apply(s, xs[0])
      case Raised(t) =>
      case Applied(t) => LoadAppend(t, xs[1..], ys);
    }
  }

  /** Applying an event a second time right after the first changes nothing. */
  lemma ApplyTwice(s: Doc, e: Event)
    ensures Load(s, [e, e]) == Load(s, [e])
  {
    assert [e, e][1..] == [e];
    var r := Apply(s, e);
    if r.Applied? {
      assert Apply(r.state, e) == r;
    }
  }

  /** A message delivered twice in a row leaves the same projection as one
      delivered once, wherever the pair sits in the log. */
  lemma DuplicateDelivery(s: Doc, xs: seq<Event>, e: Event, ys: seq<Event>)
    ensures Load(s, xs + [e, e] + ys) == Load(s, xs + [e] + ys)
  {
    LoadAppend(s, xs + [e, e], ys);
    LoadAppend(s, xs + [e], ys);
    LoadAppend(s, xs, [e, e]);
    LoadAppend(s, xs, [e]);
    if Load(s, xs).Applied? {
      ApplyTwice(Load(s, xs).state, e);
    }
  }

  /** A creation forgets everything before it: from any point the log can
      reach without raising, `[c] + ys` leads where it leads from scratch. */
  lemma CreatedResets(s: Doc, xs: seq<Event>, c: Event, ys: seq<Event>)
    requires c.eventType == NoteCreated
    requires Load(s, xs).Applied?
    ensures Load(s, xs + [c] + ys) == Load(map[], [c] + ys)
  {
    assert xs + [c] + ys == xs + ([c] + ys);
    LoadAppend(s, xs, [c] + ys);
    assert ([c] + ys)[0] == c && ([c] + ys)[1..] == ys;
    assert Apply(Load(s, xs).state, c) == Apply(map[], c);
  }

  /** Once deleted, a note stays deleted through any events that are not
      creations. */
  lemma {:induction false} DeletedPersists(s: Doc, events: seq<Event>)
    requires IsDeleted(s)
    requires forall i | 0 <= i < |events| :: events[i].eventType != NoteCreated
    ensures IsDeleted(Load(s, events).state)
    decreases |events|
  {
    if events != [] {
      match Apply(s, events[0])
      case Raised(t) =>
      case Applied(t) =>
        assert IsDeleted(t);
        DeletedPersists(t, events[1..]);
    }
  }

  /** The mutable aggregate of one note. */
  class NoteAggregate {
    const noteId: string
    var state: Doc

    /** A fresh aggregate keeps its id and starts from the empty state. */
    constructor (noteId: string)
      ensures this.noteId == noteId && state == map[]
    {
      this.noteId := noteId;
      state := map[];
    }

    /** Applies one event in place; `raised` reports the KeyError. */
    method ApplyEvent(e: Event) returns (raised: bool)
      modifies this
      ensures Apply(old(state), e) == if raised then Raised(state) else Applied(state)
    {
      raised := false;
      if e.eventType == NoteCreated {
        state := e.data;
        state := state["user_id" := Str(e.userId)];
      } else if e.eventType == NoteUpdated {
        if "content" !in e.data {
          raised := true;
          return;
        }
        state := state["content" := e.data["content"]];
      } else if e.eventType == NoteDeleted {
        state := state["deleted" := Flag(true)];
      }
    }

    /** Applies the events one at a time, in order; on a KeyError it stops
        and keeps the state reached before the failing event. */
    method LoadFromEvents(events: seq<Event>) returns (raised: bool)
      modifies this
      ensures Load(old(state), events) == if raised then Raised(state) else Applied(state)
    {
      ghost var start := state;
      raised := false;
      var i := 0;
      while i < |events|
        invariant 0 <= i <= |events|
        invariant Load(start, events[..i]) == Applied(state)
      {
        assert events[..i + 1] == events[..i] + [events[i]];
        LoadAppend(start, events[..i], [events[i]]);
        assert [events[i]][1..] == [];
        raised := ApplyEvent(events[i]);
        if raised {
          assert events == events[..i + 1] + events[i + 1..];
          LoadAppend(start, events[..i + 1], events[i + 1..]);
          return;
        }
        i := i + 1;
      }
      assert events[..i] == events;
    }
  }
}
