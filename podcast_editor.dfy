/**
 * The admin podcast editor: the podcast record it validates, loading a podcast
 * for editing, and the submit that puts the podcast first in the CMS list.
 */
module PodcastEditor {
  import opened Wrappers
  import opened Js
  import opened Lists
  import opened Validation
  import opened PodcastModel
  import opened CmsModel

  /** A podcast as the plain object `validate` reads. */
  function PodcastRecord(p: PodcastRef): (r: Record)
    ensures Get(r, "title") == Str(p.title) && Get(r, "embed") == Str(p.embed)
    ensures Get(r, "id") == Str(p.id) && Get(r, "publishedAt") == Num(p.publishedAt)
  {
    map["id" := Str(p.id), "title" := Str(p.title), "embed" := Str(p.embed), "publishedAt" := Num(p.publishedAt)]
  }

  /** A podcast validates against `PodcastSchema` exactly when it has a title and an embed. */
  lemma PodcastRefValidIff(p: PodcastRef)
    ensures ValidateSpec(PodcastRecord(p), PodcastSchema).isValid <==> p.title != "" && p.embed != ""
  {
    PodcastValidIff(PodcastRecord(p));
  }

  function HasId(id: string): (f: PodcastRef -> bool)
    ensures forall p :: f(p) <==> p.id == id
  {
    (p: PodcastRef) => p.id == id
  }

  /** What the editor's inputs hold. */
  class PodcastEditorView {
    /** The id the editor was last synchronised with; `None` stands for `undefined`. */
    var loadedId: Option<string>
    var title: string
    var embed: string
    var publishedAt: int

    /** `now` is the current time in seconds, read when the editor opens. */
    constructor (now: int)
      ensures loadedId == Some("") && title == "" && embed == "" && publishedAt == now
    {
      loadedId := Some("");
      title := "";
      embed := "";
      publishedAt := now;
    }

    /** The podcast the inputs describe, under the route id or a fresh id. */
    function Current(routeId: Option<string>, freshId: string): (p: PodcastRef)
      reads this
      ensures p.id == OrElse(routeId, freshId) && p.title == title && p.embed == embed && p.publishedAt == publishedAt
    {
      PodcastRef(OrElse(routeId, freshId), title, embed, publishedAt)
    }

    /** The save button is enabled exactly when the title and the embed are filled. */
    lemma FormValidIff(routeId: Option<string>, freshId: string)
      ensures ValidateSpec(PodcastRecord(Current(routeId, freshId)), PodcastSchema).isValid <==>
        title != "" && embed != ""
    {
      PodcastRefValidIff(Current(routeId, freshId));
    }

    /**
     * The render-time synchronisation with the route: a new route id copies the
     * title, embed and date of the listed podcast with that id, when there is one;
     * leaving edit mode resets them to empty strings and the current time `now`.
     */
    method Sync(cms: Cms, routeId: Option<string>, now: int)
      modifies this
      ensures Given(routeId) && old(loadedId) != routeId ==>
        loadedId == routeId &&
        match Find(cms.podcasts, HasId(routeId.value))
        case Some(p) => title == p.title && embed == p.embed && publishedAt == p.publishedAt
        case None => title == old(title) && embed == old(embed) && publishedAt == old(publishedAt)
      ensures !Given(routeId) && old(loadedId) != routeId ==>
        loadedId.None? && title == "" && embed == "" && publishedAt == now
      ensures old(loadedId) == routeId ==>
        loadedId == old(loadedId) && title == old(title) && embed == old(embed) && publishedAt == old(publishedAt)
    {
      if Given(routeId) && loadedId != routeId {
        loadedId := routeId;
        var selected := Find(cms.podcasts, HasId(routeId.value));
        if selected.Some? {
          title := selected.value.title;
          embed := selected.value.embed;
          publishedAt := selected.value.publishedAt;
        }
      } else if !Given(routeId) && loadedId != routeId {
        loadedId := None;
        title := "";
        embed := "";
        publishedAt := now;
      }
    }

    /** `submit`: puts the podcast first and drops every other podcast with its id, the rest in order. */
    method Submit(cms: Cms, routeId: Option<string>, freshId: string) returns (podcast: PodcastRef)
      modifies cms
      ensures podcast == Current(routeId, freshId)
      ensures cms.podcasts == PutFirst(podcast, old(cms.podcasts), PodcastId)
      ensures cms.menuItems == old(cms.menuItems) && cms.files == old(cms.files)
      ensures cms.pictures == old(cms.pictures) && cms.events == old(cms.events)
    {
      podcast := Current(routeId, freshId);
      cms.podcasts := PutFirst(podcast, cms.podcasts, PodcastId);
    }
  }

  /** After a submit the list keeps one podcast per id when it had one per id before. */
  lemma SubmitKeepsIdsUnique(podcasts: seq<PodcastRef>, podcast: PodcastRef)
    requires UniqueKeys(podcasts, PodcastId)
    ensures UniqueKeys(PutFirst(podcast, podcasts, PodcastId), PodcastId)
  {
    PutFirstKeepsKeysUnique(podcast, podcasts, PodcastId);
  }
}
