/**
 * The admin list of pages: the text filter, deleting a page, showing or hiding
 * a page in the menu, and the display order.
 */
module PageList {
  import opened Wrappers
  import opened Js
  import opened Lists
  import opened Repository
  import opened CmsModel

  /** A menu item matches when its page title or its menu title contains the query, ignoring case. */
  predicate PageMatches(m: MenuItem, q: string) {
    MatchesQuery(m.pageTitle, q) || MatchesQuery(m.title, q)
  }

  function Matching(q: string): MenuItem -> bool {
    (m: MenuItem) => PageMatches(m, q)
  }

  /** `filter`: the menu items that match, in menu order; all of them for the empty query. */
  function FilterPages(items: seq<MenuItem>, q: string): (r: seq<MenuItem>)
    ensures q == "" ==> r == items
    ensures forall m :: m in r <==> m in items && PageMatches(m, q)
  {
    Filter(items, Matching(q))
  }

  function OnOtherPage(id: string): MenuItem -> bool {
    (m: MenuItem) => m.pageId != Some(id)
  }

  /** The menu items of every page but `id`, in menu order. */
  function WithoutPage(items: seq<MenuItem>, id: string): (r: seq<MenuItem>)
    ensures |r| <= |items|
    ensures forall m :: m in r <==> m in items && m.pageId != Some(id)
  {
    Filter(items, OnOtherPage(id))
  }

  /** The last menu item of page `id`: the one the toggle's `forEach` is left holding. */
  function LastOfPage(items: seq<MenuItem>, id: string): (r: Option<MenuItem>)
    ensures r.Some? ==> r.value in items && r.value.pageId == Some(id)
    ensures r.None? <==> forall m :: m in items ==> m.pageId != Some(id)
  {
    if |items| == 0 then None
    else if items[|items| - 1].pageId == Some(id) then Some(items[|items| - 1])
    else
      var r := LastOfPage(items[..|items| - 1], id);
      assert forall m :: m in items ==> m in items[..|items| - 1] || m == items[|items| - 1];
      r
  }

  /** Shown pages go to the top menu; hidden ones get position None. */
  function TogglePosition(visible: bool): (r: int)
    ensures r == PositionTop <==> visible
    ensures r == PositionNone <==> !visible
  {
    if visible then PositionTop else PositionNone
  }

  /** The menu after toggling page `id`: its item first with the new position, the other pages' items after it in their order. */
  function Toggled(items: seq<MenuItem>, id: string, visible: bool): (r: seq<MenuItem>)
    requires LastOfPage(items, id).Some?
    ensures |r| == 1 + |WithoutPage(items, id)|
    ensures r[0] == LastOfPage(items, id).value.(position := TogglePosition(visible))
    ensures r[0].pageId == Some(id) && r[0].position == TogglePosition(visible)
    ensures forall i :: 1 <= i < |r| ==> r[i].pageId != Some(id)
    ensures r[1..] == WithoutPage(items, id)
  {
    var r := [LastOfPage(items, id).value.(position := TogglePosition(visible))] + WithoutPage(items, id);
    assert forall i :: 1 <= i < |r| ==> r[i] in WithoutPage(items, id);
    r
  }

  /** The backend payload of a toggle: the page id and the new menu position, nothing else. */
  function TogglePatch(id: string, position: int): (r: Record)
    ensures r.Keys == {"id", "menuDetails"}
  {
    map["id" := Str(id), "menuDetails" := Obj(map["position" := Num(position)])]
  }

  /**
   * Merging the toggle's payload into a stored page changes its menu position
   * and id, and keeps every other field of the page and of its menu details.
   */
  lemma TogglePatchKeepsPage(stored: Record, id: string, position: int)
    requires "menuDetails" in stored && stored["menuDetails"].Obj?
    ensures var r := Merge(stored, TogglePatch(id, position));
      && r.Keys == stored.Keys + {"id"}
      && r["id"] == Str(id)
      && (forall k :: k in stored && k != "id" && k != "menuDetails" ==> r[k] == stored[k])
      && r["menuDetails"].Obj?
      && r["menuDetails"].fields.Keys == stored["menuDetails"].fields.Keys + {"position"}
      && r["menuDetails"].fields["position"] == Num(position)
      && (forall f :: f in stored["menuDetails"].fields && f != "position" ==>
            r["menuDetails"].fields[f] == stored["menuDetails"].fields[f])
  {
    var patch := TogglePatch(id, position);
    var details := stored["menuDetails"].fields;
    var newPos := map["position" := Num(position)];
    assert patch["menuDetails"] == Obj(newPos);
    MergeScalar(details, "position", Num(position));
    var r := Merge(stored, patch);
    assert r["menuDetails"] == Obj(details["position" := Num(position)]);
    assert r["id"] == Str(id);
  }

  lemma WithoutPageAround(a: seq<MenuItem>, x: MenuItem, b: seq<MenuItem>, id: string)
    requires forall m :: m in a ==> m.pageId != Some(id)
    requires forall m :: m in b ==> m.pageId != Some(id)
    requires x.pageId == Some(id)
    ensures WithoutPage(a + [x] + b, id) == a + b
  {
    var p := OnOtherPage(id);
    var ax := a + [x];
    assert Filter([x], p) == [] by {
      assert [x][1..] == [];
    }
    assert Filter(ax, p) == a by {
      FilterAppend(a, [x], p);
      assert forall j :: 0 <= j < |a| ==> p(a[j]) by {
        assert forall j :: 0 <= j < |a| ==> a[j] in a;
      }
    }
    assert Filter(ax + b, p) == a + b by {
      FilterAppend(ax, b, p);
      assert forall j :: 0 <= j < |b| ==> p(b[j]) by {
        assert forall j :: 0 <= j < |b| ==> b[j] in b;
      }
    }
  }

  /** When page `id` has exactly one menu item, the toggle moves it to the front and keeps the others in order. */
  lemma ToggleSingle(items: seq<MenuItem>, k: int, id: string, visible: bool)
    requires 0 <= k < |items| && items[k].pageId == Some(id)
    requires forall j :: 0 <= j < |items| && j != k ==> items[j].pageId != Some(id)
    ensures LastOfPage(items, id) == Some(items[k])
    ensures Toggled(items, id, visible) == [items[k].(position := TogglePosition(visible))] + items[..k] + items[k + 1..]
  {
    var before, after := items[..k], items[k + 1..];
    SplitAround(items, k);
    forall m | m in before
      ensures m.pageId != Some(id)
    {
      var j :| 0 <= j < k && before[j] == m;
      assert items[j] == m;
    }
    forall m | m in after
      ensures m.pageId != Some(id)
    {
      var j :| 0 <= j < |after| && after[j] == m;
      assert items[k + 1 + j] == m;
    }
    LastOfPageSkips(items[..k + 1], after, id);
    WithoutPageAround(before, items[k], after, id);
    ConsAssoc(items[k].(position := TogglePosition(visible)), before, after);
  }

  /** Items after the last one of page `id` do not change which one is last. */
  lemma {:induction false} LastOfPageSkips(a: seq<MenuItem>, b: seq<MenuItem>, id: string)
    requires forall m :: m in b ==> m.pageId != Some(id)
    ensures LastOfPage(a + b, id) == LastOfPage(a, id)
  {
    if |b| > 0 {
      var front := b[..|b| - 1];
      assert (a + b)[..|a + b| - 1] == a + front;
      assert b[|b| - 1] in b;
      LastOfPageSkips(a, front, id);
    } else {
      assert a + b == a;
    }
  }

  /** One step of the toggle's scan: how the other pages' items and the last item of page `id` grow by one element. */
  lemma TogglePrefixStep(items: seq<MenuItem>, i: int, id: string)
    requires 0 <= i < |items|
    ensures WithoutPage(items[..i + 1], id) ==
      WithoutPage(items[..i], id) + (if items[i].pageId == Some(id) then [] else [items[i]])
    ensures LastOfPage(items[..i + 1], id) ==
      if items[i].pageId == Some(id) then Some(items[i]) else LastOfPage(items[..i], id)
  {
    var m := items[i];
    assert items[..i + 1] == items[..i] + [m];
    assert items[..i + 1][..i] == items[..i];
    FilterSnoc(items[..i], m, OnOtherPage(id));
  }

  /** The toggle's scan: one pass that keeps the other pages' items and remembers the last item of page `id`. */
  method SplitOffPage(items: seq<MenuItem>, id: string) returns (others: seq<MenuItem>, found: Option<MenuItem>)
    ensures others == WithoutPage(items, id) && found == LastOfPage(items, id)
  {
    others := [];
    found := None;
    var i := 0;
    while i < |items|
      invariant 0 <= i <= |items|
      invariant others == WithoutPage(items[..i], id)
      invariant found == LastOfPage(items[..i], id)
    {
      var m := items[i];
      TogglePrefixStep(items, i, id);
      if m.pageId == Some(id) {
        found := Some(m);
      } else {
        others := others + [m];
      }
      i := i + 1;
    }
    assert items[..|items|] == items;
  }

  function TitleKey(m: MenuItem): string {
    Lower(m.title)
  }

  /** The admin list of pages. */
  class PageListView {
    var pages: seq<MenuItem>
    var flaggedToDelete: Option<string>
    var effects: seq<Effect>
    /**
     * Whether `pages` is still the very array held in `cms.menuItems`:
     * `useState(cms.menuItems)` shares it until the list is filtered or the
     * menu array is replaced.
     */
    var sharesMenu: bool

    constructor (cms: Cms)
      ensures pages == cms.menuItems && flaggedToDelete.None? && effects == [] && sharesMenu
    {
      pages := cms.menuItems;
      flaggedToDelete := None;
      effects := [];
      sharesMenu := true;
    }

    /** `filter`: shows the matching menu items. */
    method ApplyFilter(cms: Cms, q: string)
      modifies this
      ensures pages == FilterPages(cms.menuItems, q) && !sharesMenu
      ensures flaggedToDelete == old(flaggedToDelete) && effects == old(effects)
    {
      pages := FilterPages(cms.menuItems, q);
      sharesMenu := false;
    }

    method FlagToDelete(id: Option<string>)
      modifies this
      ensures flaggedToDelete == id && pages == old(pages) && effects == old(effects) && sharesMenu == old(sharesMenu)
    {
      flaggedToDelete := id;
    }

    method CancelDelete()
      modifies this
      ensures flaggedToDelete.None? && pages == old(pages) && effects == old(effects) && sharesMenu == old(sharesMenu)
    {
      flaggedToDelete := None;
    }

    /**
     * `confirmDelete`: with a page flagged, deletes its document, drops its menu
     * items and shows the whole menu again; the flag is cleared either way.
     */
    method ConfirmDelete(cms: Cms)
      modifies this, cms
      ensures flaggedToDelete.None?
      ensures Given(old(flaggedToDelete)) ==> var id := old(flaggedToDelete).value;
        && effects == old(effects) + [DeleteDocument(id)]
        && cms.menuItems == WithoutPage(old(cms.menuItems), id)
        && pages == cms.menuItems && !sharesMenu
      ensures !Given(old(flaggedToDelete)) ==>
        (effects == old(effects) && cms.menuItems == old(cms.menuItems) && pages == old(pages) && sharesMenu == old(sharesMenu))
      ensures cms.files == old(cms.files) && cms.podcasts == old(cms.podcasts)
      ensures cms.pictures == old(cms.pictures) && cms.events == old(cms.events)
    {
      if Given(flaggedToDelete) {
        var id := flaggedToDelete.value;
        effects := effects + [DeleteDocument(id)];
        cms.menuItems := WithoutPage(cms.menuItems, id);
        ApplyFilter(cms, "");
      }
      flaggedToDelete := None;
    }

    /**
     * `togglePageDisplay`: nothing for a missing id; otherwise sends the new
     * position to the backend and moves the page's item to the front of the menu.
     * The page must have a menu item: the source dereferences it.
     */
    method TogglePageDisplay(cms: Cms, id: Option<string>, visible: bool)
      requires Given(id) ==> LastOfPage(cms.menuItems, id.value).Some?
      modifies this, cms
      ensures pages == old(pages) && flaggedToDelete == old(flaggedToDelete)
      ensures !Given(id) ==> cms.menuItems == old(cms.menuItems) && effects == old(effects) && sharesMenu == old(sharesMenu)
      ensures Given(id) ==> !sharesMenu
      ensures Given(id) ==>
        && cms.menuItems == Toggled(old(cms.menuItems), id.value, visible)
        && effects == old(effects) + [PatchDocument(TogglePatch(id.value, TogglePosition(visible)))]
      ensures cms.files == old(cms.files) && cms.podcasts == old(cms.podcasts)
      ensures cms.pictures == old(cms.pictures) && cms.events == old(cms.events)
    {
      if !Given(id) {
        return;
      }
      var key := id.value;
      var others, found := SplitOffPage(cms.menuItems, key);
      var item := found.value.(position := TogglePosition(visible));
      var menu := [item] + others;
      assert menu == Toggled(cms.menuItems, key, visible);
      effects := effects + [PatchDocument(TogglePatch(key, item.position))];
      cms.menuItems := menu;
      sharesMenu := false;
    }

    /**
     * The table sorts the shown items by lower-cased menu title, in place; while
     * the list still shares the menu array, that reorders `cms.menuItems` too.
     */
    method SortForDisplay(cms: Cms)
      modifies this, cms
      ensures SortedBy(pages, ByStringKey(TitleKey)) && multiset(pages) == multiset(old(pages))
      ensures old(sharesMenu) ==> cms.menuItems == pages
      ensures !old(sharesMenu) ==> cms.menuItems == old(cms.menuItems)
      ensures flaggedToDelete == old(flaggedToDelete) && effects == old(effects) && sharesMenu == old(sharesMenu)
      ensures cms.files == old(cms.files) && cms.podcasts == old(cms.podcasts)
      ensures cms.pictures == old(cms.pictures) && cms.events == old(cms.events)
    {
      StringKeyOrders(TitleKey);
      pages := SortBy(pages, ByStringKey(TitleKey));
      if sharesMenu {
        cms.menuItems := pages;
      }
    }
  }
}
