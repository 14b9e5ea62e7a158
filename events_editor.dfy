/**
 * The admin event editor: the description taken from the rich-text editor,
 * the event record it validates, loading an event for editing, and the submit
 * that puts the event first in the CMS list and deletes a replaced image.
 */
module EventsEditor {
  import opened Wrappers
  import opened Js
  import opened Lists
  import opened Validation
  import opened CmsModel

  /** The HTML an empty rich-text editor produces. */
  const EmptyEditorHtml := "<p><br></p>"

  /** The editor's HTML, with an empty editor's paragraph read as no description at all. */
  function Description(html: string): (r: string)
    ensures r == "" <==> html == "" || html == EmptyEditorHtml
    ensures r != "" ==> r == html
  {
    if html == EmptyEditorHtml then "" else html
  }

  const EventFields: seq<string> := ["date", "title", "description"]

  /** `date`, `title` and `description`, each Required, without hints. */
  const EventSchema: seq<FieldSchema> := RequiredSchema(EventFields)

  /** An event as the plain object `validate` reads. */
  function EventRecord(e: Event): (r: Record)
    ensures Get(r, "date") == Num(e.date) && Get(r, "title") == Str(e.title)
    ensures Get(r, "description") == Str(e.description)
  {
    map["id" := Str(e.id), "title" := Str(e.title), "description" := Str(e.description),
        "date" := Num(e.date), "path" := Str(e.path), "downloadUrl" := Str(e.downloadUrl)]
  }

  /** An event validates exactly when it has a date other than 0, a title and a description. */
  lemma EventValidIff(e: Event)
    ensures ValidateSpec(EventRecord(e), EventSchema).isValid <==>
      e.date != 0 && e.title != "" && e.description != ""
  {
    EventFieldsPlain();
    AllRequiredValidIff(EventRecord(e), EventFields);
    EventFieldsFilled(e);
  }

  lemma EventFieldsPlain()
    ensures forall i :: 0 <= i < |EventFields| ==> '.' !in EventFields[i]
  {
    assert EventFields[0] == "date" && EventFields[1] == "title" && EventFields[2] == "description";
  }

  lemma EventFieldsFilled(e: Event)
    ensures (forall i :: 0 <= i < |EventFields| ==> Filled(Get(EventRecord(e), EventFields[i]))) <==>
      e.date != 0 && e.title != "" && e.description != ""
  {
    var r := EventRecord(e);
    assert EventFields[0] == "date" && EventFields[1] == "title" && EventFields[2] == "description";
    assert Filled(Get(r, "date")) <==> e.date != 0;
    assert Filled(Get(r, "title")) <==> e.title != "";
    assert Filled(Get(r, "description")) <==> e.description != "";
    if e.date != 0 && e.title != "" && e.description != "" {
      assert forall i :: 0 <= i < |EventFields| ==> Filled(Get(r, EventFields[i]));
    }
  }

  /**
   * The image file a submit deletes: the path of the first listed event with
   * the submitted id, when it differs from the submitted path and is not empty.
   */
  function ReplacedFile(events: seq<Event>, event: Event): (r: Option<string>)
    ensures r.Some? ==> r.value != "" && r.value != event.path
    ensures r.Some? ==> exists e :: e in events && e.id == event.id && e.path == r.value
    ensures (forall e :: e in events ==> e.id != event.id) ==> r.None?
  {
    var prior := Find(events, (e: Event) => e.id == event.id);
    if prior.Some? && prior.value.path != event.path && prior.value.path != "" then Some(prior.value.path) else None
  }

  /** With one event per id, the deleted file is the image of the event being replaced. */
  lemma ReplacedFileOfUniqueId(events: seq<Event>, k: int, event: Event)
    requires UniqueKeys(events, EventId)
    requires 0 <= k < |events| && events[k].id == event.id
    ensures ReplacedFile(events, event) == if events[k].path != event.path && events[k].path != "" then Some(events[k].path) else None
  {
    var prior := Find(events, (e: Event) => e.id == event.id);
    assert events[k] in events;
    var i :| 0 <= i < |events| && events[i] == prior.value && events[i].id == event.id && forall j :: 0 <= j < i ==> events[j].id != event.id;
    assert EventId(events[i]) == EventId(events[k]);
    assert i == k;
  }

  /** What the editor's inputs hold. */
  class EventEditor {
    /** The id the editor was last synchronised with; `None` stands for `undefined`. */
    var loadedId: Option<string>
    var title: string
    /** The rich-text editor's content, as its HTML. */
    var content: string
    var date: int
    var path: string
    var downloadUrl: Option<string>
    var effects: seq<Effect>

    constructor ()
      ensures loadedId == Some("") && title == "" && content == EmptyEditorHtml && date == 0
      ensures path == "" && downloadUrl == Some("") && effects == []
    {
      loadedId := Some("");
      title := "";
      content := EmptyEditorHtml;
      date := 0;
      path := "";
      downloadUrl := Some("");
      effects := [];
    }

    /** The event the inputs describe: the route id or a fresh id, and `''` for a missing download URL. */
    function Current(routeId: Option<string>, freshId: string): (e: Event)
      reads this
      ensures e.id == OrElse(routeId, freshId)
      ensures e.title == title && e.date == date && e.path == path
      ensures e.description == Description(content) && e.downloadUrl == OrElse(downloadUrl, "")
    {
      Event(OrElse(routeId, freshId), date, title, Description(content), path, OrElse(downloadUrl, ""))
    }

    /** The save button is enabled exactly when a date is chosen and the title and description are filled. */
    lemma FormValidIff(routeId: Option<string>, freshId: string)
      ensures ValidateSpec(EventRecord(Current(routeId, freshId)), EventSchema).isValid <==>
        date != 0 && title != "" && content != "" && content != EmptyEditorHtml
    {
      EventValidIff(Current(routeId, freshId));
    }

    /**
     * The render-time synchronisation with the route: a new route id loads the
     * listed event with that id, when there is one; leaving edit mode clears the inputs.
     */
    method Sync(cms: Cms, routeId: Option<string>)
      modifies this
      ensures effects == old(effects)
      ensures Given(routeId) && old(loadedId) != routeId ==>
        loadedId == routeId &&
        match Find(cms.events, (e: Event) => e.id == routeId.value)
        case Some(e) =>
          title == e.title && content == e.description && date == e.date && path == e.path && downloadUrl == Some(e.downloadUrl)
        case None =>
          title == old(title) && content == old(content) && date == old(date) && path == old(path) && downloadUrl == old(downloadUrl)
      ensures !Given(routeId) && old(loadedId) != routeId ==>
        loadedId.None? && title == "" && content == EmptyEditorHtml && date == 0 && path == "" && downloadUrl.None?
      ensures old(loadedId) == routeId ==>
        loadedId == old(loadedId) && title == old(title) && content == old(content) && date == old(date)
        && path == old(path) && downloadUrl == old(downloadUrl)
    {
      if Given(routeId) && loadedId != routeId {
        loadedId := routeId;
        var selected := Find(cms.events, (e: Event) => e.id == routeId.value);
        if selected.Some? {
          title := selected.value.title;
          content := selected.value.description;
          date := selected.value.date;
          path := selected.value.path;
          downloadUrl := Some(selected.value.downloadUrl);
        }
      } else if !Given(routeId) && loadedId != routeId {
        loadedId := None;
        title := "";
        content := EmptyEditorHtml;
        date := 0;
        path := "";
        downloadUrl := None;
      }
    }

    /** The image upload's callback: the stored path, and the download URL unless it is empty. */
    method OnUpload(url: string, filePath: string)
      modifies this
      ensures path == filePath && OrElse(downloadUrl, "") == url
      ensures downloadUrl == if url == "" then None else Some(url)
      ensures loadedId == old(loadedId) && title == old(title) && content == old(content) && date == old(date)
      ensures effects == old(effects)
    {
      path := filePath;
      downloadUrl := if url == "" then None else Some(url);
    }

    /** A cleared editor never validates: its description is empty. */
    lemma ClearedIsInvalid(routeId: Option<string>, freshId: string)
      requires content == EmptyEditorHtml
      ensures !ValidateSpec(EventRecord(Current(routeId, freshId)), EventSchema).isValid
    {
      FormValidIff(routeId, freshId);
    }

    /**
     * `submit`: deletes the replaced image of an event with the same id, then puts
     * the event first and drops every other event with its id, the rest in order.
     */
    method Submit(cms: Cms, routeId: Option<string>, freshId: string) returns (event: Event)
      modifies this, cms
      ensures event == old(Current(routeId, freshId))
      ensures cms.events == PutFirst(event, old(cms.events), EventId)
      ensures effects == old(effects) + FileDeletion(ReplacedFile(old(cms.events), event))
      ensures cms.menuItems == old(cms.menuItems) && cms.files == old(cms.files) && cms.podcasts == old(cms.podcasts)
      ensures cms.pictures == old(cms.pictures)
      ensures loadedId == old(loadedId) && title == old(title) && content == old(content) && date == old(date)
      ensures path == old(path) && downloadUrl == old(downloadUrl)
    {
      event := Current(routeId, freshId);
      var replaced := ReplacedFile(cms.events, event);
      if replaced.Some? {
        effects := effects + [DeleteFile(replaced.value)];
      }
      cms.events := PutFirst(event, cms.events, EventId);
    }
  }

  /** After a submit the list keeps one event per id, the submitted one first, when it had one per id before. */
  lemma SubmitKeepsIdsUnique(events: seq<Event>, event: Event)
    requires UniqueKeys(events, EventId)
    ensures UniqueKeys(PutFirst(event, events, EventId), EventId)
    ensures PutFirst(event, events, EventId)[0] == event
  {
    PutFirstKeepsKeysUnique(event, events, EventId);
  }
}
