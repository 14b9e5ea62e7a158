/**
 * The admin list of podcasts: the title filter, deleting a podcast, and the
 * newest-first display order.
 */
module PodcastList {
  import opened Wrappers
  import opened Js
  import opened Lists
  import opened CmsModel

  function TitleMatching(q: string): (f: PodcastRef -> bool)
    ensures forall p :: f(p) <==> MatchesQuery(p.title, q)
  {
    (p: PodcastRef) => MatchesQuery(p.title, q)
  }

  /** `filter`: the podcasts whose title contains the query, ignoring case, in list order. */
  function FilterPodcasts(podcasts: seq<PodcastRef>, q: string): (r: seq<PodcastRef>)
    ensures |r| <= |podcasts|
    ensures forall p :: p in r <==> p in podcasts && MatchesQuery(p.title, q)
  {
    Filter(podcasts, TitleMatching(q))
  }

  /** `filter('')` shows every podcast. */
  lemma EmptyQueryShowsAll(podcasts: seq<PodcastRef>)
    ensures FilterPodcasts(podcasts, "") == podcasts
  {
    assert forall i :: 0 <= i < |podcasts| ==> TitleMatching("")(podcasts[i]);
  }

  function NotFlagged(id: string): (f: PodcastRef -> bool)
    ensures forall p :: f(p) <==> p.id != id
  {
    (p: PodcastRef) => p.id != id
  }

  /** The list after deleting: every podcast with the flagged id removed, the others in order. */
  function WithoutPodcast(podcasts: seq<PodcastRef>, id: string): (r: seq<PodcastRef>)
    ensures |r| <= |podcasts|
    ensures forall p :: p in r <==> p in podcasts && p.id != id
  {
    Filter(podcasts, NotFlagged(id))
  }

  /** The admin list of podcasts. */
  class PodcastListView {
    var podcasts: seq<PodcastRef>
    var flaggedToDelete: Option<string>
    /**
     * Whether `podcasts` is still the very array held in `cms.podcasts`:
     * `useState(cms.podcasts)` shares it until the list is filtered.
     */
    var sharesPodcasts: bool

    constructor (cms: Cms)
      ensures podcasts == cms.podcasts && flaggedToDelete.None? && sharesPodcasts
    {
      podcasts := cms.podcasts;
      flaggedToDelete := None;
      sharesPodcasts := true;
    }

    method FlagToDelete(id: Option<string>)
      modifies this
      ensures flaggedToDelete == id && podcasts == old(podcasts) && sharesPodcasts == old(sharesPodcasts)
    {
      flaggedToDelete := id;
    }

    method CancelDelete()
      modifies this
      ensures flaggedToDelete.None? && podcasts == old(podcasts) && sharesPodcasts == old(sharesPodcasts)
    {
      flaggedToDelete := None;
    }

    /** `filter`: shows the matching podcasts. */
    method ApplyFilter(cms: Cms, q: string)
      modifies this
      ensures podcasts == FilterPodcasts(cms.podcasts, q) && flaggedToDelete == old(flaggedToDelete) && !sharesPodcasts
    {
      podcasts := FilterPodcasts(cms.podcasts, q);
      sharesPodcasts := false;
    }

    /**
     * `confirmDelete`: with a podcast flagged, removes every podcast with its id
     * and shows them all; no file or document is deleted. The flag is cleared either way.
     */
    method ConfirmDelete(cms: Cms)
      modifies this, cms
      ensures flaggedToDelete.None?
      ensures Given(old(flaggedToDelete)) ==>
        cms.podcasts == WithoutPodcast(old(cms.podcasts), old(flaggedToDelete).value) && podcasts == cms.podcasts && !sharesPodcasts
      ensures !Given(old(flaggedToDelete)) ==>
        cms.podcasts == old(cms.podcasts) && podcasts == old(podcasts) && sharesPodcasts == old(sharesPodcasts)
      ensures cms.menuItems == old(cms.menuItems) && cms.files == old(cms.files)
      ensures cms.pictures == old(cms.pictures) && cms.events == old(cms.events)
    {
      if Given(flaggedToDelete) {
        cms.podcasts := WithoutPodcast(cms.podcasts, flaggedToDelete.value);
        ApplyFilter(cms, "");
        EmptyQueryShowsAll(cms.podcasts);
      }
      flaggedToDelete := None;
    }

    /**
     * The table sorts the shown podcasts newest first, in place; while the list
     * still shares the podcasts array, that reorders `cms.podcasts` too.
     */
    method SortForDisplay(cms: Cms)
      modifies this, cms
      ensures SortedBy(podcasts, ByIntKeyDesc(PublishedAt)) && multiset(podcasts) == multiset(old(podcasts))
      ensures old(sharesPodcasts) ==> cms.podcasts == podcasts
      ensures !old(sharesPodcasts) ==> cms.podcasts == old(cms.podcasts)
      ensures flaggedToDelete == old(flaggedToDelete) && sharesPodcasts == old(sharesPodcasts)
      ensures cms.menuItems == old(cms.menuItems) && cms.files == old(cms.files)
      ensures cms.pictures == old(cms.pictures) && cms.events == old(cms.events)
    {
      IntKeyOrders(PublishedAt);
      podcasts := SortBy(podcasts, ByIntKeyDesc(PublishedAt));
      if sharesPodcasts {
        cms.podcasts := podcasts;
      }
    }
  }
}
