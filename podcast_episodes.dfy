/**
 * The public podcast episodes: the newest episodes first, how an embed is
 * played, and the optional date and title headings.
 */
module PodcastEpisodes {
  import opened Wrappers
  import opened Js
  import opened Lists
  import opened CmsModel

  /** How an episode is played: the embed's own HTML, or a player pointed at the embed URL. */
  datatype Player = RawHtml(html: string) | Frame(src: string)

  /** A shown episode: the heading (publication time and title) when titles are shown, and the player. */
  datatype Episode = Episode(key: string, heading: Option<(int, string)>, player: Player)

  /** An embed containing `iframe` is markup of its own; anything else is a URL the player loads without autoplay. */
  function PlayerOf(embed: string): (r: Player)
    ensures Includes(embed, "iframe") <==> r.RawHtml?
    ensures r.RawHtml? ==> r.html == embed
    ensures r.Frame? ==> r.src == embed + "&autoPlay=false"
  {
    if Includes(embed, "iframe") then RawHtml(embed) else Frame(embed + "&autoPlay=false")
  }

  function EpisodeOf(showTitles: bool): (f: PodcastRef -> Episode)
    ensures forall p :: f(p).key == p.id && f(p).player == PlayerOf(p.embed)
    ensures forall p :: f(p).heading.Some? <==> showTitles
    ensures forall p :: showTitles ==> f(p).heading == Some((p.publishedAt, p.title))
  {
    (p: PodcastRef) => Episode(p.id, if showTitles then Some((p.publishedAt, p.title)) else None, PlayerOf(p.embed))
  }

  /** `slice(0, numberOfItems)`: all of them when the count is not given. */
  function Shown(sorted: seq<PodcastRef>, numberOfItems: Option<nat>): (r: seq<PodcastRef>)
    ensures r <= sorted
    ensures numberOfItems.None? ==> r == sorted
    ensures numberOfItems.Some? ==> |r| == if numberOfItems.value < |sorted| then numberOfItems.value else |sorted|
  {
    if numberOfItems.Some? then Take(sorted, numberOfItems.value) else sorted
  }

  /** In a newest-first list, every shown episode is at least as new as every episode left out. */
  lemma ShownAreNewest(sorted: seq<PodcastRef>, numberOfItems: Option<nat>)
    requires SortedBy(sorted, ByIntKeyDesc(PublishedAt))
    ensures var r := Shown(sorted, numberOfItems);
      forall i, p :: 0 <= i < |r| && p in sorted[|r|..] ==> p.publishedAt <= r[i].publishedAt
  {
    var r := Shown(sorted, numberOfItems);
    forall i, p | 0 <= i < |r| && p in sorted[|r|..]
      ensures p.publishedAt <= r[i].publishedAt
    {
      var k :| 0 <= k < |sorted[|r|..]| && sorted[|r|..][k] == p;
      assert sorted[|r| + k] == p;
      assert ByIntKeyDesc(PublishedAt)(sorted[i], sorted[|r| + k]);
    }
  }

  /**
   * The component: sorts `cms.podcasts` itself newest first, then shows the
   * first `numberOfItems` of them.
   */
  method Render(cms: Cms, numberOfItems: Option<nat>, showTitles: bool) returns (episodes: seq<Episode>)
    modifies cms
    ensures SortedBy(cms.podcasts, ByIntKeyDesc(PublishedAt)) && multiset(cms.podcasts) == multiset(old(cms.podcasts))
    ensures episodes == Map(Shown(cms.podcasts, numberOfItems), EpisodeOf(showTitles))
    ensures cms.menuItems == old(cms.menuItems) && cms.files == old(cms.files)
    ensures cms.pictures == old(cms.pictures) && cms.events == old(cms.events)
  {
    IntKeyOrders(PublishedAt);
    cms.podcasts := SortBy(cms.podcasts, ByIntKeyDesc(PublishedAt));
    episodes := Map(Shown(cms.podcasts, numberOfItems), EpisodeOf(showTitles));
  }
}
