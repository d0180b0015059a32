/** The two queries the notes service runs against the event collection:
    the events of one aggregate ordered by timestamp, and the distinct
    aggregate ids of one user. The collection is a sequence of events in
    the order they were stored. */
module EventStore {
  import opened NoteModel

  /** Timestamps never decrease along `s`. */
  predicate Ordered(s: seq<Event>)
  {
    forall i, j | 0 <= i < j < |s| :: s[i].timestamp <= s[j].timestamp
  }

  /** Timestamps strictly increase along `s`. */
  predicate Increasing(s: seq<Event>)
  {
    forall i, j | 0 <= i < j < |s| :: s[i].timestamp < s[j].timestamp
  }

  /** The stored events whose aggregate id is `noteId`, in store order. */
  function Matching(store: seq<Event>, noteId: string): (r: seq<Event>)
    ensures forall i | 0 <= i < |r| :: r[i].aggregateId == noteId
    ensures forall e: Event | e.aggregateId == noteId :: multiset(r)[e] == multiset(store)[e]
    decreases |store|
  {
    if store == [] then []
    else
      var prefix, last := store[..|store| - 1], store[|store| - 1];
      assert store == prefix + [last];
      if last.aggregateId == noteId then Matching(prefix, noteId) + [last]
      else Matching(prefix, noteId)
  }

  /** Inserts `e` into a sequence after the longest suffix of events that
      are later than it. */
  function Insert(sorted: seq<Event>, e: Event): (r: seq<Event>)
    ensures |r| == |sorted| + 1
    decreases |sorted|
  {
    if sorted == [] || sorted[|sorted| - 1].timestamp <= e.timestamp then sorted + [e]
    else Insert(sorted[..|sorted| - 1], e) + [sorted[|sorted| - 1]]
  }

  /** Inserting adds exactly `e`, and the result ends with `e` or with the
      sequence's old last event. */
  lemma {:induction false} InsertPermutes(sorted: seq<Event>, e: Event)
    ensures multiset(Insert(sorted, e)) == multiset(sorted) + multiset{e}
    ensures var r := Insert(sorted, e); r[|r| - 1] == e || r[|r| - 1] == sorted[|sorted| - 1]
    decreases |sorted|
  {
    if sorted != [] && e.timestamp < sorted[|sorted| - 1].timestamp {
      var prefix, last := sorted[..|sorted| - 1], sorted[|sorted| - 1];
      assert sorted == prefix + [last];
      InsertPermutes(prefix, e);
    }
  }

  /** Inserting keeps an ordered sequence ordered. */
  lemma {:induction false} InsertOrdered(sorted: seq<Event>, e: Event)
    requires Ordered(sorted)
    ensures Ordered(Insert(sorted, e))
    decreases |sorted|
  {
    if sorted == [] || sorted[|sorted| - 1].timestamp <= e.timestamp {
      OrderedSnoc(sorted, e);
    } else {
      var prefix, last := sorted[..|sorted| - 1], sorted[|sorted| - 1];
      assert Ordered(prefix) by {
        forall i, j | 0 <= i < j < |prefix| ensures prefix[i].timestamp <= prefix[j].timestamp {
          assert prefix[i] == sorted[i] && prefix[j] == sorted[j];
        }
      }
      InsertOrdered(prefix, e);
      InsertPermutes(prefix, e);
      var front := Insert(prefix, e);
      assert front[|front| - 1].timestamp <= last.timestamp by {
        if front[|front| - 1] != e {
          assert sorted[|prefix| - 1] == prefix[|prefix| - 1];
        }
      }
      OrderedSnoc(front, last);
    }
  }

  /** An event no earlier than the last one extends an ordered sequence. */
  lemma OrderedSnoc(s: seq<Event>, x: Event)
    requires Ordered(s)
    requires s != [] ==> s[|s| - 1].timestamp <= x.timestamp
    ensures Ordered(s + [x])
  {
  }

  /** Insertion sort by timestamp; events with equal timestamps keep their
      store order. */
  function SortByTimestamp(s: seq<Event>): (r: seq<Event>)
    ensures |r| == |s|
    decreases |s|
  {
    if s == [] then [] else Insert(SortByTimestamp(s[..|s| - 1]), s[|s| - 1])
  }

  /** Sorting yields an ordered permutation. */
  lemma {:induction false} SortSorts(s: seq<Event>)
    ensures Ordered(SortByTimestamp(s))
    ensures multiset(SortByTimestamp(s)) == multiset(s)
    decreases |s|
  {
    if s != [] {
      assert s == s[..|s| - 1] + [s[|s| - 1]];
      SortSorts(s[..|s| - 1]);
      InsertOrdered(SortByTimestamp(s[..|s| - 1]), s[|s| - 1]);
      InsertPermutes(SortByTimestamp(s[..|s| - 1]), s[|s| - 1]);
    }
  }

  /** `find({"aggregate_id": note_id}).sort("timestamp")`. */
  function EventsFor(store: seq<Event>, noteId: string): (r: seq<Event>)
  {
    SortByTimestamp(Matching(store, noteId))
  }

  /** The events of an aggregate are exactly the stored events with its id,
      each as often as it is stored, in non-decreasing timestamp order; there
      are none exactly when no stored event carries the id. */
  lemma EventsForExactly(store: seq<Event>, noteId: string)
    ensures Ordered(EventsFor(store, noteId))
    ensures forall i | 0 <= i < |EventsFor(store, noteId)| :: EventsFor(store, noteId)[i].aggregateId == noteId
    ensures forall e: Event | e.aggregateId == noteId :: multiset(EventsFor(store, noteId))[e] == multiset(store)[e]
    ensures EventsFor(store, noteId) == [] <==> forall e | e in store :: e.aggregateId != noteId
  {
    var m := Matching(store, noteId);
    var r := EventsFor(store, noteId);
    SortSorts(m);
    forall i | 0 <= i < |r| ensures r[i].aggregateId == noteId {
      assert r[i] in multiset(m);
    }
    if r == [] {
      forall e | e in store ensures e.aggregateId != noteId {
        assert multiset(r)[e] == 0;
      }
    } else {
      assert r[0] in multiset(m);
      assert r[0] in multiset(store);
    }
  }

  /** The first event of an aggregate was stored and is no later than any
      stored event of that aggregate. */
  lemma FirstIsEarliest(store: seq<Event>, noteId: string)
    requires EventsFor(store, noteId) != []
    ensures EventsFor(store, noteId)[0] in store
    ensures EventsFor(store, noteId)[0].aggregateId == noteId
    ensures forall e | e in store && e.aggregateId == noteId :: EventsFor(store, noteId)[0].timestamp <= e.timestamp
  {
    var r := EventsFor(store, noteId);
    EventsForExactly(store, noteId);
    assert r[0] in multiset(store);
    forall e | e in store && e.aggregateId == noteId ensures r[0].timestamp <= e.timestamp {
      assert multiset(store)[e] > 0;
      assert e in multiset(r);
      var j :| 0 <= j < |r| && r[j] == e;
    }
  }

  /** Storing an event later than every other event its aggregate already
      has (copies of the event itself aside) puts it last in that
      aggregate's events and leaves every other aggregate's events alone. */
  lemma AppendLatest(store: seq<Event>, e: Event, noteId: string)
    requires forall x | x in store && x.aggregateId == e.aggregateId :: x.timestamp < e.timestamp || x == e
    ensures EventsFor(store + [e], noteId) ==
      if noteId == e.aggregateId then EventsFor(store, noteId) + [e] else EventsFor(store, noteId)
  {
    MatchingSnoc(store, e, noteId);
    if noteId == e.aggregateId {
      var m := Matching(store, noteId);
      SortSnoc(m, e);
      LatestLast(store, e);
    }
  }

  /** Matching over one more stored event. */
  lemma MatchingSnoc(store: seq<Event>, e: Event, noteId: string)
    ensures Matching(store + [e], noteId) ==
      if e.aggregateId == noteId then Matching(store, noteId) + [e] else Matching(store, noteId)
  {
    assert (store + [e])[..|store|] == store;
  }

  /** Sorting one more event inserts it into the sorted rest. */
  lemma SortSnoc(m: seq<Event>, e: Event)
    ensures SortByTimestamp(m + [e]) == Insert(SortByTimestamp(m), e)
  {
    assert (m + [e])[..|m|] == m;
  }

  /** An event no earlier than an aggregate's events goes at the end of
      them when inserted. */
  lemma LatestLast(store: seq<Event>, e: Event)
    requires forall x | x in store && x.aggregateId == e.aggregateId :: x.timestamp < e.timestamp || x == e
    ensures Insert(EventsFor(store, e.aggregateId), e) == EventsFor(store, e.aggregateId) + [e]
  {
    var m := Matching(store, e.aggregateId);
    var sorted := SortByTimestamp(m);
    if sorted != [] {
      SortSorts(m);
      var last := sorted[|sorted| - 1];
      assert last in multiset(m);
      assert last in multiset(store);
    }
  }

  /** The first event stored for an aggregate is all it has. */
  lemma FirstEvent(store: seq<Event>, e: Event)
    requires forall x | x in store :: x.aggregateId != e.aggregateId
    ensures EventsFor(store, e.aggregateId) == []
    ensures EventsFor(store + [e], e.aggregateId) == [e]
  {
    EventsForExactly(store, e.aggregateId);
    AppendLatest(store, e, e.aggregateId);
  }

  /** Storing the same latest event twice in a row puts both copies at
      the end of its aggregate's events. */
  lemma AppendTwice(store: seq<Event>, e: Event)
    requires forall x | x in store && x.aggregateId == e.aggregateId :: x.timestamp < e.timestamp
    ensures EventsFor(store + [e, e], e.aggregateId) == EventsFor(store, e.aggregateId) + [e, e]
  {
    var id := e.aggregateId;
    var once := store + [e];
    AppendLatest(store, e, id);
    assert forall x | x in once && x.aggregateId == id :: x.timestamp < e.timestamp || x == e by {
      forall x | x in once && x.aggregateId == id
        ensures x.timestamp < e.timestamp || x == e
      {
        if x != e { assert x in store; }
      }
    }
    AppendLatest(once, e, id);
    SnocTwice(store, e);
    SnocTwice(EventsFor(store, id), e);
  }

  /** A non-empty sequence is its prefix followed by its last element. */
  lemma SplitLast<T>(s: seq<T>)
    requires s != []
    ensures s == s[..|s| - 1] + [s[|s| - 1]]
  {
  }

  /** Taking one more element appends it. */
  lemma TakeSnoc<T>(s: seq<T>, i: nat)
    requires i < |s|
    ensures s[..i + 1] == s[..i] + [s[i]]
  {
  }

  /** Taking every element gives the whole sequence. */
  lemma TakeAll<T>(s: seq<T>)
    ensures s[..|s|] == s
  {
  }

  /** Appending an element twice is appending the pair. */
  lemma SnocTwice<T>(s: seq<T>, x: T)
    ensures s + [x] + [x] == s + [x, x]
  {
  }

  /** A strict bound on the timestamps of an aggregate's events bounds
      every stored event of that aggregate. */
  lemma StampedEarlier(store: seq<Event>, noteId: string, now: int)
    requires forall x | x in EventsFor(store, noteId) :: x.timestamp < now
    ensures forall x | x in store && x.aggregateId == noteId :: x.timestamp < now
  {
    EventsForExactly(store, noteId);
    forall x | x in store && x.aggregateId == noteId ensures x.timestamp < now {
      assert multiset(store)[x] > 0;
      assert x in multiset(EventsFor(store, noteId));
    }
  }

  /** The events of a note that had none in `store` are exactly the events
      persisted for it since, when each was stamped later than the one
      before. */
  lemma {:induction false} FreshNoteEvents(store: seq<Event>, noteId: string, later: seq<Event>)
    requires forall e | e in store :: e.aggregateId != noteId
    requires forall e | e in later :: e.aggregateId == noteId
    requires Increasing(later)
    ensures EventsFor(store + later, noteId) == later
    decreases |later|
  {
    if later == [] {
      assert store + later == store;
      EventsForExactly(store, noteId);
    } else {
      var prefix, last := later[..|later| - 1], later[|later| - 1];
      assert store + later == (store + prefix) + [last];
      IncreasingPrefix(later);
      FreshNoteEvents(store, noteId, prefix);
      StampedEarlier(store + prefix, noteId, last.timestamp);
      AppendLatest(store + prefix, last, noteId);
    }
  }

  /** Dropping the last event removes one copy of it. */
  lemma DropLast(s: seq<Event>)
    requires s != []
    ensures multiset(s[..|s| - 1]) == multiset(s) - multiset{s[|s| - 1]}
  {
    assert s == s[..|s| - 1] + [s[|s| - 1]];
  }

  /** Two ordered arrangements of the same nonempty events end with the
      same event when equal timestamps only belong to equal events. */
  lemma SameLast(a: seq<Event>, b: seq<Event>)
    requires Ordered(a) && Ordered(b) && multiset(a) == multiset(b)
    requires Unambiguous(a) && a != [] && |a| == |b|
    ensures a[|a| - 1] == b[|b| - 1]
  {
    var n := |a| - 1;
    assert b[n] in multiset(a);
    var k :| 0 <= k < |a| && a[k] == b[n];
    assert a[n] in multiset(b);
    var m :| 0 <= m < |b| && b[m] == a[n];
    assert a[k].timestamp <= a[n].timestamp;
    assert b[m].timestamp <= b[n].timestamp;
  }

  /** Two timestamp-ordered arrangements of the same events are the same
      sequence when equal timestamps only ever belong to equal events. */
  lemma {:induction false} OrderedUnique(a: seq<Event>, b: seq<Event>)
    requires Ordered(a) && Ordered(b) && multiset(a) == multiset(b)
    requires Unambiguous(a)
    ensures a == b
    decreases |a|
  {
    assert |a| == |multiset(a)| == |b|;
    if a != [] {
      var n := |a| - 1;
      SameRest(a, b);
      OrderedPrefix(a);
      OrderedPrefix(b);
      UnambiguousPrefix(a);
      OrderedUnique(a[..n], b[..n]);
      assert a == a[..n] + [a[n]] && b == b[..n] + [b[n]];
    }
  }

  /** Two ordered arrangements of the same nonempty events agree on their
      last event and hold the same events before it. */
  lemma SameRest(a: seq<Event>, b: seq<Event>)
    requires Ordered(a) && Ordered(b) && multiset(a) == multiset(b)
    requires Unambiguous(a) && a != [] && |a| == |b|
    ensures a[|a| - 1] == b[|b| - 1]
    ensures multiset(a[..|a| - 1]) == multiset(b[..|b| - 1])
  {
    SameLast(a, b);
    DropLast(a);
    DropLast(b);
  }

  /** When no two different stored events of a note share a timestamp, any
      timestamp sort of the note's events, whatever it does with ties,
      returns exactly `EventsFor`. */
  lemma AnySortAgrees(store: seq<Event>, noteId: string, sorted: seq<Event>)
    requires forall x, y | x in store && y in store && x.aggregateId == noteId && y.aggregateId == noteId && x.timestamp == y.timestamp :: x == y
    requires Ordered(sorted) && multiset(sorted) == multiset(Matching(store, noteId))
    ensures sorted == EventsFor(store, noteId)
  {
    var r := EventsFor(store, noteId);
    EventsForExactly(store, noteId);
    SortSorts(Matching(store, noteId));
    forall i, j | 0 <= i < |r| && 0 <= j < |r| && r[i].timestamp == r[j].timestamp ensures r[i] == r[j] {
      assert r[i] in multiset(r) && r[j] in multiset(r);
      assert r[i] in multiset(store) && r[j] in multiset(store);
    }
    OrderedUnique(r, sorted);
  }

  /** Dropping the last event keeps a sequence increasing, and every
      event before the last is earlier than it. */
  lemma IncreasingPrefix(s: seq<Event>)
    requires Increasing(s) && s != []
    ensures Increasing(s[..|s| - 1])
    ensures forall x | x in s[..|s| - 1] :: x.timestamp < s[|s| - 1].timestamp
  {
    var n := |s| - 1;
    forall i, j | 0 <= i < j < n ensures s[..n][i].timestamp < s[..n][j].timestamp {
      assert s[..n][i] == s[i] && s[..n][j] == s[j];
    }
    forall x | x in s[..n] ensures x.timestamp < s[n].timestamp {
      var i :| 0 <= i < n && s[..n][i] == x;
      assert s[i] == x;
    }
  }

  /** Dropping the last event keeps a sequence ordered. */
  lemma OrderedPrefix(s: seq<Event>)
    requires Ordered(s) && s != []
    ensures Ordered(s[..|s| - 1])
  {
    var n := |s| - 1;
    forall i, j | 0 <= i < j < n ensures s[..n][i].timestamp <= s[..n][j].timestamp {
      assert s[..n][i] == s[i] && s[..n][j] == s[j];
    }
  }

  /** Equal timestamps in `s` only ever belong to equal events. */
  predicate Unambiguous(s: seq<Event>)
  {
    forall i, j | 0 <= i < |s| && 0 <= j < |s| && s[i].timestamp == s[j].timestamp :: s[i] == s[j]
  }

  /** Dropping the last event keeps a sequence unambiguous. */
  lemma UnambiguousPrefix(s: seq<Event>)
    requires Unambiguous(s) && s != []
    ensures Unambiguous(s[..|s| - 1])
  {
    var n := |s| - 1;
    forall i, j | 0 <= i < n && 0 <= j < n && s[..n][i].timestamp == s[..n][j].timestamp
      ensures s[..n][i] == s[..n][j]
    {
      assert s[..n][i] == s[i] && s[..n][j] == s[j];
    }
  }

  /** No aggregate id occurs twice in `ids`. */
  predicate Distinct(ids: seq<string>)
  {
    forall i, j | 0 <= i < j < |ids| :: ids[i] != ids[j]
  }

  /** `distinct("aggregate_id", {"user_id": user_id})`: every aggregate id
      that has an event with this user id, once each, in order of first
      appearance in the store. */
  function AggregatesFor(store: seq<Event>, userId: string): (r: seq<string>)
    ensures Distinct(r)
    ensures forall id :: id in r <==> exists e | e in store :: e.userId == userId && e.aggregateId == id
    decreases |store|
  {
    if store == [] then []
    else
      var prefix, last := store[..|store| - 1], store[|store| - 1];
      assert store == prefix + [last];
      var earlier := AggregatesFor(prefix, userId);
      if last.userId == userId && last.aggregateId !in earlier then earlier + [last.aggregateId]
      else earlier
  }
}
