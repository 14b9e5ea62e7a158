/**
 * The public home page: which menu items feed the news and the president's
 * messages sections, and when a section is left out.
 */
module Home {
  import opened Wrappers
  import opened Js
  import opened Lists
  import opened CmsModel

  const NewsPrefix := "news-"
  const MessagePrefix := "msg-"

  /** How many pages each section shows at most. */
  const SectionSize := 3

  function WithPrefix(prefix: string): MenuItem -> bool {
    (m: MenuItem) => StartsWith(m.permalink, prefix)
  }

  function PageIdOf(m: MenuItem): Option<string> {
    m.pageId
  }

  /**
   * `newsItemsIds` / `messageItemsIds`: the page ids of the first three menu
   * items whose permalink starts with `prefix`, in menu order. The menu itself
   * is only read.
   */
  function ItemIds(items: seq<MenuItem>, prefix: string): (r: seq<Option<string>>)
    ensures |r| <= SectionSize
    ensures forall i :: 0 <= i < |r| ==>
      exists m :: m in items && StartsWith(m.permalink, prefix) && m.pageId == r[i]
  {
    var matching := Filter(items, WithPrefix(prefix));
    var first := Take(matching, SectionSize);
    var r := Map(first, PageIdOf);
    assert forall i :: 0 <= i < |r| ==> r[i] == first[i].pageId && first[i] in matching;
    r
  }

  /**
   * The ids are those of the matching items, in order, cut at three: all of them
   * when there are at most three, otherwise exactly three.
   */
  lemma ItemIdsArePrefix(items: seq<MenuItem>, prefix: string)
    ensures var all := Map(Filter(items, WithPrefix(prefix)), PageIdOf);
      && ItemIds(items, prefix) <= all
      && |ItemIds(items, prefix)| == if |all| < SectionSize then |all| else SectionSize
  {
  }

  /** No ids exactly when no menu item's permalink has the prefix. */
  lemma {:induction false} ItemIdsEmptyIff(items: seq<MenuItem>, prefix: string)
    ensures ItemIds(items, prefix) == [] <==> forall m :: m in items ==> !StartsWith(m.permalink, prefix)
  {
    var matching := Filter(items, WithPrefix(prefix));
    if matching != [] {
      assert matching[0] in matching;
    }
  }

  /** What a section shows: the placeholders, the loaded pages, or nothing at all. */
  datatype Section = Placeholder | Loaded(count: nat) | Omitted

  /** `loaded` is the number of pages fetched for the section's ids so far. */
  function SectionState(ids: seq<Option<string>>, loaded: nat): (r: Section)
    ensures r == Omitted <==> loaded == 0 && |ids| == 0
    ensures r == Placeholder <==> loaded == 0 && |ids| > 0
    ensures r.Loaded? ==> r.count == loaded
  {
    if loaded > 0 then Loaded(loaded)
    else if |ids| == 0 then Omitted
    else Placeholder
  }

  /**
   * A section is left out exactly when nothing is loaded and no menu item has
   * its prefix; with matching items but nothing loaded the placeholders stay.
   */
  lemma SectionOmittedIff(items: seq<MenuItem>, prefix: string, loaded: nat)
    ensures SectionState(ItemIds(items, prefix), loaded) == Omitted <==>
      loaded == 0 && forall m :: m in items ==> !StartsWith(m.permalink, prefix)
    ensures loaded == 0 && (exists m :: m in items && StartsWith(m.permalink, prefix)) ==>
      SectionState(ItemIds(items, prefix), loaded) == Placeholder
  {
    ItemIdsEmptyIff(items, prefix);
  }
}
