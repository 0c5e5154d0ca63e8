/**
 * The client's event list: how `App` replaces its list after each server call
 * (fetch, create, delete, archive) and which events the category filter shows.
 */
module ClientList {
  import opened Seqs
  import opened Events
  import opened EventStore

  /** How a call to the server ended: with the JSON it answered, or with a thrown error. */
  datatype Reply<T> = Ok(value: T) | Failed

  /** The filter buttons: every event, or one category. */
  datatype CategoryFilter = All | Only(category: Category)

  /** `fetchEvents`: the fetched array is sorted by instant and becomes the list; on error the list stays. */
  function AfterFetch(current: seq<Event>, reply: Reply<seq<Event>>): (r: seq<Event>)
    ensures reply.Failed? ==> r == current
    ensures reply.Ok? ==> Sorted(r) && multiset(r) == multiset(reply.value)
    ensures reply.Ok? ==> forall w :: Filter(r, At(w)) == Filter(reply.value, At(w))
  {
    match reply
    case Failed => current
    case Ok(fetched) =>
      SortByWhenSorted(fetched);
      SortByWhenStableEverywhere(fetched);
      SortByWhen(fetched)
  }

  /** `handleEventCreated`: the created event is appended and the list re-sorted; on error the list stays. */
  function AfterCreate(current: seq<Event>, reply: Reply<Event>): (r: seq<Event>)
    ensures reply.Failed? ==> r == current
    ensures reply.Ok? ==> Sorted(r) && multiset(r) == multiset(current) + multiset{reply.value}
    ensures reply.Ok? ==> forall w :: Filter(r, At(w)) == Filter(current + [reply.value], At(w))
  {
    match reply
    case Failed => current
    case Ok(created) =>
      SortByWhenSorted(current + [created]);
      SortByWhenStableEverywhere(current + [created]);
      SortByWhen(current + [created])
  }

  function IdIsNot(id: string): Event -> bool {
    (e: Event) => e.id != id
  }

  /**
   * `handleEventDeleted`: once the server has confirmed, every event with that
   * id leaves the list and the rest keep their order and their number of
   * copies; on error the list stays.
   */
  function AfterDelete(current: seq<Event>, id: string, reply: Reply<()>): (r: seq<Event>)
    ensures reply.Failed? ==> r == current
    ensures reply.Ok? ==> forall e :: e in r ==> e in current && e.id != id
    ensures reply.Ok? ==> forall e :: e in current && e.id != id ==> e in r
    ensures reply.Ok? ==> forall e :: multiset(r)[e] == if e.id != id then multiset(current)[e] else 0
    ensures reply.Ok? ==>
      var ps := Passing(current, IdIsNot(id));
      |r| == |ps| && forall k :: 0 <= k < |ps| ==> r[k] == current[ps[k]]
  {
    match reply
    case Failed => current
    case Ok(_) =>
      FilterOnlyPassing(current, IdIsNot(id));
      FilterKeepsPassing(current, IdIsNot(id));
      FilterMultiplicities(current, IdIsNot(id));
      FilterSelectsPassing(current, IdIsNot(id));
      Filter(current, IdIsNot(id))
  }

  /**
   * `prev.map(event => event.id === eventId ? updatedEvent : event)`: the
   * length is kept, and every entry afterwards is either the updated event or
   * an old entry with another id, at the position it held.
   */
  function ReplaceId(s: seq<Event>, id: string, updated: Event): (r: seq<Event>)
    ensures |r| == |s|
    ensures forall i :: 0 <= i < |s| && s[i].id == id ==> r[i] == updated
    ensures forall i :: 0 <= i < |s| && s[i].id != id ==> r[i] == s[i]
    ensures forall e :: e in r ==> e == updated || (e in s && e.id != id)
  {
    seq(|s|, i requires 0 <= i < |s| => if s[i].id == id then updated else s[i])
  }

  /** `handleEventArchived`: the event the server returned replaces every entry with that id; on error the list stays. */
  function AfterArchive(current: seq<Event>, id: string, reply: Reply<Event>): (r: seq<Event>)
    ensures reply.Failed? ==> r == current
    ensures |r| == |current|
    ensures forall i :: 0 <= i < |r| && current[i].id != id ==> r[i] == current[i]
    ensures reply.Ok? ==> forall i :: 0 <= i < |r| && current[i].id == id ==> r[i] == reply.value
  {
    match reply
    case Failed => current
    case Ok(updated) => ReplaceId(current, id, updated)
  }

  function Shows(filter: CategoryFilter): Event -> bool {
    (e: Event) => filter.All? || e.category == filter.category
  }

  /**
   * `filteredEvents`: with "all" the whole list, otherwise the events of one
   * category, each as often as in the list and in list order.
   */
  function Visible(events: seq<Event>, filter: CategoryFilter): (r: seq<Event>)
    ensures filter.All? ==> r == events
    ensures filter.Only? ==> forall e :: e in r ==> e in events && e.category == filter.category
    ensures filter.Only? ==> forall e :: e in events && e.category == filter.category ==> e in r
    ensures filter.Only? ==>
      forall e :: multiset(r)[e] == if e.category == filter.category then multiset(events)[e] else 0
    ensures
      var ps := Passing(events, Shows(filter));
      |r| == |ps| && forall k :: 0 <= k < |ps| ==> r[k] == events[ps[k]]
  {
    FilterKeepsAll(events, Shows(All));
    FilterOnlyPassing(events, Shows(filter));
    FilterKeepsPassing(events, Shows(filter));
    FilterMultiplicities(events, Shows(filter));
    FilterSelectsPassing(events, Shows(filter));
    Filter(events, Shows(filter))
  }

  // ---------------------------------------------------------------------
  // The client's list follows the server's store

  /**
   * When the list holds what the store holds, removing the deleted id
   * locally gives exactly the store after its `splice`.
   */
  lemma DeleteMirrorsServer(s: seq<Event>, id: string)
    requires UniqueIds(s)
    ensures Filter(s, IdIsNot(id)) == DeleteById(s, id)
  {
    var p := IdIsNot(id);
    match FirstIndexOf(s, id)
    case None =>
      FilterKeepsAll(s, p);
    case Some(i) =>
      assert forall j :: 0 <= j < |s| && j != i ==> p(s[j]) by {
        forall j | 0 <= j < |s| && j != i ensures s[j].id != id {
          if j > i {
            assert s[i].id != s[j].id;
          }
        }
      }
      FilterDropsAt(s, i, p);
  }

  /**
   * When the list holds what the store holds, putting the archived event the
   * server returned in place of its id gives exactly the store after archiving.
   */
  lemma ArchiveMirrorsServer(s: seq<Event>, id: string)
    requires UniqueIds(s)
    requires FirstIndexOf(s, id).Some?
    ensures AfterArchive(s, id, Ok(ArchiveById(s, id)[FirstIndexOf(s, id).value])) == ArchiveById(s, id)
  {
    var i := FirstIndexOf(s, id).value;
    var r := ArchiveById(s, id);
    var l := AfterArchive(s, id, Ok(r[i]));
    forall j | 0 <= j < |s| ensures l[j] == r[j] {
      if j != i {
        assert s[j].id != id;
      }
    }
  }
}
