/**
 * The admin list of events: the title and day filter, and deleting an event
 * together with its image file.
 */
module EventsList {
  import opened Wrappers
  import opened Js
  import opened Lists
  import opened CmsModel

  /**
   * `filter(title, date)`'s test: the title contains the query, ignoring case,
   * and either no day is chosen (`date` 0) or the event falls inside that day,
   * whose first and last millisecond are `startAt` and `endAt`.
   */
  predicate EventMatches(e: Event, q: string, date: int, startAt: int, endAt: int) {
    MatchesQuery(e.title, q) && (date == 0 || (e.date <= endAt && e.date >= startAt))
  }

  function Matching(q: string, date: int, startAt: int, endAt: int): Event -> bool {
    (e: Event) => EventMatches(e, q, date, startAt, endAt)
  }

  /** `filter`: the matching events, in list order. */
  function FilterEvents(events: seq<Event>, q: string, date: int, startAt: int, endAt: int): (r: seq<Event>)
    ensures |r| <= |events|
    ensures forall e :: e in r <==> e in events && MatchesQuery(e.title, q) && (date == 0 || startAt <= e.date <= endAt)
  {
    Filter(events, Matching(q, date, startAt, endAt))
  }

  /** `filter('', 0)` shows every event, whatever the day bounds. */
  lemma ResetShowsAll(events: seq<Event>, startAt: int, endAt: int)
    ensures FilterEvents(events, "", 0, startAt, endAt) == events
  {
    assert forall i :: 0 <= i < |events| ==> Matching("", 0, startAt, endAt)(events[i]);
  }

  function NotFlagged(id: string): (f: Event -> bool)
    ensures forall e :: f(e) <==> e.id != id
  {
    (e: Event) => e.id != id
  }

  /** The list after deleting: every event with the flagged id removed, the others in order. */
  function WithoutEvent(events: seq<Event>, id: string): (r: seq<Event>)
    ensures |r| <= |events|
    ensures forall e :: e in r <==> e in events && e.id != id
  {
    Filter(events, NotFlagged(id))
  }

  /**
   * The file `confirmDelete` deletes AS WRITTEN: the path of the first event
   * whose id is NOT the flagged one, when that path is not empty.
   */
  function FileToDeleteAsWritten(events: seq<Event>, id: string): (r: Option<string>)
    ensures r.Some? ==> r.value != "" && exists e :: e in events && e.id != id && e.path == r.value
  {
    var deleted := Find(events, NotFlagged(id));
    if deleted.Some? && deleted.value.path != "" then Some(deleted.value.path) else None
  }

  /**
   * The file of a DIFFERENT event is deleted: with the flagged event second,
   * the first event's file goes while the first event stays in the list.
   */
  lemma AsWrittenDeletesOtherFile(first: Event, flagged: Event)
    requires first.id != flagged.id && first.path != ""
    ensures FileToDeleteAsWritten([first, flagged], flagged.id) == Some(first.path)
    ensures first in WithoutEvent([first, flagged], flagged.id)
    ensures flagged !in WithoutEvent([first, flagged], flagged.id)
  {
  }

  /** Whatever file the code as written deletes belongs to an event that stays listed. */
  lemma AsWrittenDeletesKeptEventsFile(events: seq<Event>, id: string)
    requires FileToDeleteAsWritten(events, id).Some?
    ensures exists e :: e in WithoutEvent(events, id) && e.path == FileToDeleteAsWritten(events, id).value
  {
  }

  function Flagged(id: string): (f: Event -> bool)
    ensures forall e :: f(e) <==> e.id == id
  {
    (e: Event) => e.id == id
  }

  /** The file `confirmDelete` is evidently meant to delete: the image of the first event with the flagged id, when it has one. */
  function FileToDelete(events: seq<Event>, id: string): (r: Option<string>)
    ensures r.Some? ==> r.value != "" && exists e :: e in events && e.id == id && e.path == r.value
    ensures (forall e :: e in events ==> e.id != id) ==> r.None?
  {
    var deleted := Find(events, Flagged(id));
    if deleted.Some? && deleted.value.path != "" then Some(deleted.value.path) else None
  }

  /** The corrected deletion only takes the file of an event the delete removes. */
  lemma DeletesRemovedEventsFile(events: seq<Event>, id: string)
    requires FileToDelete(events, id).Some?
    ensures exists e :: e in events && e !in WithoutEvent(events, id) && e.path == FileToDelete(events, id).value
  {
  }

  /** With the flagged event listed and having an image, that image is deleted. */
  lemma FlaggedImageDeleted(events: seq<Event>, k: int)
    requires UniqueKeys(events, EventId)
    requires 0 <= k < |events| && events[k].path != ""
    ensures FileToDelete(events, events[k].id) == Some(events[k].path)
  {
    var id := events[k].id;
    assert Flagged(id)(events[k]);
    var found := Find(events, Flagged(id));
    assert found.Some?;
    var i :| 0 <= i < |events| && events[i] == found.value && Flagged(id)(events[i])
      && forall j :: 0 <= j < i ==> !Flagged(id)(events[j]);
    assert events[i].id == id;
    assert EventId(events[i]) == EventId(events[k]);
    assert i == k;
  }

  /** The admin list of events. */
  class EventListView {
    var events: seq<Event>
    var flaggedToDelete: Option<string>
    var effects: seq<Effect>

    constructor (cms: Cms)
      ensures events == cms.events && flaggedToDelete.None? && effects == []
    {
      events := cms.events;
      flaggedToDelete := None;
      effects := [];
    }

    method FlagToDelete(id: Option<string>)
      modifies this
      ensures flaggedToDelete == id && events == old(events) && effects == old(effects)
    {
      flaggedToDelete := id;
    }

    method CancelDelete()
      modifies this
      ensures flaggedToDelete.None? && events == old(events) && effects == old(effects)
    {
      flaggedToDelete := None;
    }

    /** `filter`: shows the matching events. */
    method ApplyFilter(cms: Cms, q: string, date: int, startAt: int, endAt: int)
      modifies this
      ensures events == FilterEvents(cms.events, q, date, startAt, endAt)
      ensures flaggedToDelete == old(flaggedToDelete) && effects == old(effects)
    {
      events := FilterEvents(cms.events, q, date, startAt, endAt);
    }

    /**
     * `confirmDelete`, corrected: with an event flagged, deletes its image, removes
     * every event with its id and shows all remaining events; the flag is cleared either way.
     */
    method ConfirmDelete(cms: Cms)
      modifies this, cms
      ensures flaggedToDelete.None?
      ensures Given(old(flaggedToDelete)) ==> var id := old(flaggedToDelete).value;
        && effects == old(effects) + FileDeletion(FileToDelete(old(cms.events), id))
        && cms.events == WithoutEvent(old(cms.events), id)
        && events == cms.events
      ensures !Given(old(flaggedToDelete)) ==>
        effects == old(effects) && cms.events == old(cms.events) && events == old(events)
      ensures cms.menuItems == old(cms.menuItems) && cms.files == old(cms.files)
      ensures cms.podcasts == old(cms.podcasts) && cms.pictures == old(cms.pictures)
    {
      if Given(flaggedToDelete) {
        var id := flaggedToDelete.value;
        var deleted := Find(cms.events, Flagged(id));
        if deleted.Some? && deleted.value.path != "" {
          effects := effects + [DeleteFile(deleted.value.path)];
        }
        cms.events := WithoutEvent(cms.events, id);
        ApplyFilter(cms, "", 0, 0, 0);
        ResetShowsAll(cms.events, 0, 0);
      }
      flaggedToDelete := None;
    }
  }
}
