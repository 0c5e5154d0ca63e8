/**
 * The server's in-memory event store and the bodies of its four handlers:
 * `POST /events` (create), `GET /events` (sort in place and list),
 * `PUT /events/:id` (archive) and `DELETE /events/:id` (delete).
 */
module EventStore {
  import opened Seqs
  import opened Events
  import opened Categorizer

  /**
   * The JSON body of `POST /events`. The handler reads `title`, `date`, `time`
   * and `notes`; the client also sends `id`, `archived` and `category`.
   */
  datatype CreateBody = CreateBody(
    title: Option<string>,
    date: Option<string>,
    time: Option<string>,
    notes: Option<string>,
    id: Option<string>,
    archived: Option<bool>,
    category: Option<string>)

  datatype Payload =
    | EventJson(event: Event)
    | EventsJson(events: seq<Event>)
    | MessageJson(message: string)

  /** An HTTP status code and the JSON sent with it. */
  datatype Response = Response(status: int, payload: Payload)

  const RequiredMessage := "Title, date, and time are required."
  const NotFoundMessage := "Event not found."
  const DeletedMessage := "Event is deleted successfully!"

  /** A string field that JavaScript reads as false: absent or empty. */
  predicate Missing(f: Option<string>) {
    f.None? || f.value == ""
  }

  /**
   * `!title || !date || !time`: a body passes exactly when title, date and
   * time are all present as non-empty strings.
   */
  predicate Rejects(body: CreateBody): (r: bool)
    ensures body.title.None? || body.date.None? || body.time.None? ==> r
    ensures !r <==> (body.title.Some? && body.date.Some? && body.time.Some?
      && |body.title.value| > 0 && |body.date.value| > 0 && |body.time.value| > 0)
  {
    Missing(body.title) || Missing(body.date) || Missing(body.time)
  }

  /** Only `title`, `date` and `time` decide the 400: notes, id, archived and category never do. */
  lemma RejectsOnlyRequiredFields(a: CreateBody, b: CreateBody)
    requires a.title == b.title && a.date == b.date && a.time == b.time
    ensures Rejects(a) == Rejects(b)
  {
  }

  /** What holds of every event the store has created: required fields present, category from the categoriser. */
  ghost predicate Stored(e: Event) {
    e.title != "" && e.date != "" && e.time != "" && e.category == Categorize(e.title, e.notes)
  }

  ghost predicate WellFormed(s: seq<Event>) {
    UniqueIds(s) && forall e :: e in s ==> Stored(e)
  }

  /** `findIndex(e => e.id === id)` (and `find`): the first position that holds `id`, if any. */
  function FirstIndexOf(s: seq<Event>, id: string): (r: Option<nat>)
    ensures r.Some? ==> r.value < |s| && s[r.value].id == id
    ensures r.Some? ==> forall j :: 0 <= j < r.value ==> s[j].id != id
    ensures r.None? ==> forall j :: 0 <= j < |s| ==> s[j].id != id
  {
    if s == [] then None
    else if s[0].id == id then Some(0)
    else
      match FirstIndexOf(s[1..], id)
      case None => None
      case Some(k) => Some(k + 1)
  }

  /**
   * The store after archiving `id`: the flag is set on the first match. No
   * field but `archived` changes, the flag only goes from false to true, and
   * events with another id are untouched.
   */
  function ArchiveById(s: seq<Event>, id: string): (r: seq<Event>)
    ensures |r| == |s|
    ensures forall j :: 0 <= j < |s| ==>
      && r[j].(archived := s[j].archived) == s[j]
      && (s[j].archived ==> r[j].archived)
      && (r[j] != s[j] ==> s[j].id == id)
    ensures FirstIndexOf(s, id).None? ==> r == s
    ensures FirstIndexOf(s, id).Some? ==>
      var i := FirstIndexOf(s, id).value;
      && r[i] == s[i].(archived := true) && r[i].archived
      && forall j :: 0 <= j < |s| && j != i ==> r[j] == s[j]
  {
    match FirstIndexOf(s, id)
    case None => s
    case Some(i) => s[i := s[i].(archived := true)]
  }

  /**
   * The store after deleting `id`: `splice(index, 1)` at the first match. A
   * known id costs one event, exactly one copy of the first match; events
   * before it stay in place and events after it move up by one.
   */
  function DeleteById(s: seq<Event>, id: string): (r: seq<Event>)
    ensures FirstIndexOf(s, id).None? ==> r == s
    ensures FirstIndexOf(s, id).Some? ==>
      var i := FirstIndexOf(s, id).value;
      && |r| == |s| - 1
      && multiset(r) == multiset(s) - multiset{s[i]}
      && (forall j :: 0 <= j < i ==> r[j] == s[j])
      && (forall j :: i <= j < |r| ==> r[j] == s[j + 1])
  {
    match FirstIndexOf(s, id)
    case None => s
    case Some(i) =>
      RemoveAt(s, i);
      s[..i] + s[i + 1..]
  }

  // ---------------------------------------------------------------------
  // Properties of the store operations

  /** Archiving an event twice leaves the same store as archiving it once. */
  lemma ArchiveIdempotent(s: seq<Event>, id: string)
    ensures ArchiveById(ArchiveById(s, id), id) == ArchiveById(s, id)
  {
    var r := ArchiveById(s, id);
    match FirstIndexOf(s, id)
    case None =>
    case Some(i) =>
      assert FirstIndexOf(r, id) == Some(i) by {
        var k := FirstIndexOf(r, id);
        assert forall j :: 0 <= j < |s| ==> r[j].id == s[j].id;
        assert k.Some? by { assert r[i].id == id; }
      }
  }

  lemma ArchiveKeepsWellFormed(s: seq<Event>, id: string)
    requires WellFormed(s)
    ensures WellFormed(ArchiveById(s, id))
  {
    var r := ArchiveById(s, id);
    forall e | e in r ensures Stored(e) {
      var j :| 0 <= j < |r| && r[j] == e;
      assert s[j] in s;
    }
  }

  /** With unique ids, after a delete no event carries the deleted id. */
  lemma DeleteLeavesNoMatch(s: seq<Event>, id: string)
    requires UniqueIds(s)
    ensures forall e :: e in DeleteById(s, id) ==> e.id != id
  {
    match FirstIndexOf(s, id)
    case None =>
    case Some(i) =>
      var r := DeleteById(s, id);
      forall e | e in r ensures e.id != id {
        var j :| 0 <= j < |r| && r[j] == e;
        if j < i {
          assert e == s[j];
        } else {
          assert e == s[j + 1];
        }
      }
  }

  lemma DeleteKeepsWellFormed(s: seq<Event>, id: string)
    requires WellFormed(s)
    ensures WellFormed(DeleteById(s, id))
  {
    match FirstIndexOf(s, id)
    case None =>
    case Some(i) =>
      var r := DeleteById(s, id);
      forall a, b | 0 <= a < b < |r| ensures r[a].id != r[b].id {
        var a', b' := if a < i then a else a + 1, if b < i then b else b + 1;
        assert r[a] == s[a'] && r[b] == s[b'];
      }
      forall e | e in r ensures Stored(e) {
        var j :| 0 <= j < |r| && r[j] == e;
        assert e == s[if j < i then j else j + 1];
      }
  }

  lemma AppendKeepsWellFormed(s: seq<Event>, e: Event)
    requires WellFormed(s) && Stored(e)
    requires forall x :: x in s ==> x.id != e.id
    ensures WellFormed(s + [e])
  {
    var r := s + [e];
    forall a, b | 0 <= a < b < |r| ensures r[a].id != r[b].id {
      if b == |s| {
        assert r[a] in s;
      }
    }
  }

  lemma SortKeepsWellFormed(s: seq<Event>)
    requires WellFormed(s)
    ensures WellFormed(SortByWhen(s))
  {
    SortKeepsUniqueIds(s);
    forall e | e in SortByWhen(s) ensures Stored(e) {
      assert e in multiset(SortByWhen(s));
    }
  }

  // ---------------------------------------------------------------------
  // The store

  /** The module-level `events` array and the handlers that change it. */
  class Store {
    var events: seq<Event>

    ghost predicate Valid()
      reads this
    {
      WellFormed(events)
    }

    /** At process start the store is empty. */
    constructor ()
      ensures Valid() && events == []
    {
      events := [];
    }

    /**
     * `POST /events`. `freshId` stands for `uuidv4()`, which never returns an
     * id the store already holds.
     */
    method Create(body: CreateBody, freshId: string) returns (response: Response)
      requires Valid()
      requires forall e :: e in events ==> e.id != freshId
      modifies this
      ensures Valid()
      ensures Rejects(body) ==>
        response == Response(400, MessageJson(RequiredMessage)) && events == old(events)
      ensures !Rejects(body) ==>
        && response.status == 201
        && response.payload.EventJson?
        && events == old(events) + [response.payload.event]
      ensures !Rejects(body) ==>
        var e := response.payload.event;
        && e.id == freshId
        && e.title == body.title.value && e.date == body.date.value && e.time == body.time.value
        && e.notes == body.notes
        && !e.archived
        && e.category == Categorize(body.title.value, body.notes)
    {
      if Rejects(body) {
        return Response(400, MessageJson(RequiredMessage));
      }
      var e := Event(freshId, body.title.value, body.date.value, body.time.value, body.notes,
                     false, Categorize(body.title.value, body.notes));
      AppendKeepsWellFormed(events, e);
      events := events + [e];
      response := Response(201, EventJson(e));
    }

    /**
     * `GET /events`: sorts the stored array in place, ascending by instant,
     * and answers with it.
     */
    method List() returns (response: Response)
      requires Valid()
      modifies this
      ensures Valid()
      ensures events == SortByWhen(old(events))
      ensures Sorted(events)
      ensures multiset(events) == multiset(old(events))
      ensures forall w :: Filter(events, At(w)) == Filter(old(events), At(w))
      ensures response == Response(200, EventsJson(events))
    {
      SortByWhenSorted(events);
      SortKeepsWellFormed(events);
      SortByWhenStableEverywhere(events);
      events := SortByWhen(events);
      response := Response(200, EventsJson(events));
    }

    /** `PUT /events/:id`: sets `archived` on the first event with that id. */
    method Archive(id: string) returns (response: Response)
      requires Valid()
      modifies this
      ensures Valid()
      ensures events == ArchiveById(old(events), id)
      ensures FirstIndexOf(old(events), id).None? ==>
        response == Response(404, MessageJson(NotFoundMessage)) && events == old(events)
      ensures FirstIndexOf(old(events), id).Some? ==>
        var i := FirstIndexOf(old(events), id).value;
        && |events| == |old(events)|
        && events[i] == old(events)[i].(archived := true)
        && (forall j :: 0 <= j < |events| && j != i ==> events[j] == old(events)[j])
        && response == Response(200, EventJson(events[i]))
    {
      ArchiveKeepsWellFormed(events, id);
      match FirstIndexOf(events, id)
      case None =>
        response := Response(404, MessageJson(NotFoundMessage));
      case Some(i) =>
        events := events[i := events[i].(archived := true)];
        response := Response(200, EventJson(events[i]));
    }

    /** `DELETE /events/:id`: splices out the first event with that id. */
    method Delete(id: string) returns (response: Response)
      requires Valid()
      modifies this
      ensures Valid()
      ensures events == DeleteById(old(events), id)
      ensures forall e :: e in events ==> e.id != id
      ensures FirstIndexOf(old(events), id).None? ==>
        response == Response(404, MessageJson(NotFoundMessage)) && events == old(events)
      ensures FirstIndexOf(old(events), id).Some? ==>
        var i := FirstIndexOf(old(events), id).value;
        && events == old(events)[..i] + old(events)[i + 1..]
        && |events| == |old(events)| - 1
        && response == Response(201, MessageJson(DeletedMessage))
    {
      DeleteKeepsWellFormed(events, id);
      DeleteLeavesNoMatch(events, id);
      match FirstIndexOf(events, id)
      case None =>
        response := Response(404, MessageJson(NotFoundMessage));
      case Some(i) =>
        events := events[..i] + events[i + 1..];
        response := Response(201, MessageJson(DeletedMessage));
    }
  }
}
