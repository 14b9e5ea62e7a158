/**
 * The public site header: the menu items sorted by parent, folded into a
 * top-level/children tree, and the visible top-level entries rendered as links
 * or dropdowns in `sort` order.
 */
module Header {
  import opened Wrappers
  import opened Js
  import opened Lists
  import opened CmsModel

  /** `a.parentId || ''`: the sort key of the first pass. */
  function ParentKey(m: MenuItem): string {
    OrElse(m.parentId, "")
  }

  /** `curr.pageId || ''`: the key a top-level item is filed under. */
  function PageKey(m: MenuItem): string {
    OrElse(m.pageId, "")
  }

  /** An item without a (non-empty) parent id is a top-level item. */
  predicate IsTop(m: MenuItem) {
    !Given(m.parentId)
  }

  function TopWith(key: string): MenuItem -> bool {
    (m: MenuItem) => IsTop(m) && PageKey(m) == key
  }

  function ChildOf(key: string): MenuItem -> bool {
    (m: MenuItem) => Given(m.parentId) && m.parentId.value == key
  }

  /** One top-level entry of the menu: its item and the children filed under it. */
  datatype MenuEntry = MenuEntry(item: MenuItem, children: seq<MenuItem>)

  /**
   * One step of the `reduce`: a top-level item opens an entry when its key is
   * free; a child is appended to its parent's entry. A top-level item whose key
   * is taken changes nothing. The source crashes on a child whose parent has no
   * entry; callers rule that out, and the step then leaves the tree unchanged.
   */
  function Step(acc: map<string, MenuEntry>, m: MenuItem): (r: map<string, MenuEntry>)
    ensures IsTop(m) ==> r.Keys == acc.Keys + {PageKey(m)}
    ensures !IsTop(m) ==> r.Keys == acc.Keys
    ensures forall k :: k in acc && k != PageKey(m) && (IsTop(m) || k != m.parentId.value) ==> r[k] == acc[k]
  {
    var key := PageKey(m);
    if key !in acc && IsTop(m) then acc[key := MenuEntry(m, [])]
    else if !IsTop(m) && m.parentId.value in acc then
      var p := m.parentId.value;
      acc[p := acc[p].(children := acc[p].children + [m])]
    else acc
  }

  /** The tree the `reduce` has built after visiting `s`. */
  function Tree(s: seq<MenuItem>): (r: map<string, MenuEntry>)
    ensures forall m :: m in s && IsTop(m) ==> PageKey(m) in r
  {
    if |s| == 0 then map[]
    else
      var front, last := s[..|s| - 1], s[|s| - 1];
      assert forall m :: m in s ==> m in front || m == last;
      Step(Tree(front), last)
  }

  /** No child comes before a top-level item. */
  predicate TopLevelFirst(s: seq<MenuItem>) {
    forall i, j :: 0 <= i < j < |s| && IsTop(s[j]) ==> IsTop(s[i])
  }

  /** Every child's parent id is the key of some top-level item: the source dereferences that entry. */
  predicate ParentsPresent(s: seq<MenuItem>) {
    forall m :: m in s && !IsTop(m) ==> exists t :: t in s && IsTop(t) && PageKey(t) == m.parentId.value
  }

  lemma PrefixFacts(s: seq<MenuItem>)
    requires |s| > 0 && TopLevelFirst(s) && ParentsPresent(s)
    ensures TopLevelFirst(s[..|s| - 1]) && ParentsPresent(s[..|s| - 1])
    ensures IsTop(s[|s| - 1]) ==> forall m :: m in s[..|s| - 1] ==> IsTop(m)
  {
    var front, last := s[..|s| - 1], s[|s| - 1];
    assert s == front + [last];
    if IsTop(last) {
      forall m | m in front
        ensures IsTop(m)
      {
        var i :| 0 <= i < |front| && front[i] == m;
        assert s[i] == m;
      }
    }
    forall m | m in front && !IsTop(m)
      ensures exists t :: t in front && IsTop(t) && PageKey(t) == m.parentId.value
    {
      assert m in s;
      var t :| t in s && IsTop(t) && PageKey(t) == m.parentId.value;
      assert t in front;
    }
  }

  /** What the tree holds for `key` after visiting `s`. */
  ghost predicate TreeFacts(s: seq<MenuItem>, key: string) {
    && (key in Tree(s) <==> |Filter(s, TopWith(key))| > 0)
    && (key in Tree(s) ==>
          && Tree(s)[key].item == Filter(s, TopWith(key))[0]
          && Tree(s)[key].children == Filter(s, ChildOf(key)))
  }

  lemma {:induction false} NoChildren(front: seq<MenuItem>, key: string)
    requires forall m :: m in front ==> IsTop(m)
    ensures Filter(front, ChildOf(key)) == []
  {
    if |front| > 0 {
      assert front[0] in front;
      assert forall m :: m in front[1..] ==> m in front;
      NoChildren(front[1..], key);
    }
  }

  lemma StepTop(front: seq<MenuItem>, last: MenuItem, key: string)
    requires IsTop(last) && (forall m :: m in front ==> IsTop(m))
    requires TreeFacts(front, key)
    ensures TreeFacts(front + [last], key)
  {
    var s := front + [last];
    assert s[..|s| - 1] == front && s[|s| - 1] == last;
    assert Tree(s) == Step(Tree(front), last);
    FilterSnoc(front, last, TopWith(key));
    FilterSnoc(front, last, ChildOf(key));
    assert Filter(s, ChildOf(key)) == Filter(front, ChildOf(key));
    StepTopEntry(Tree(front), last, key);
    if key !in Tree(front) {
      assert Filter(front, TopWith(key)) == [];
      if PageKey(last) == key {
        NoChildren(front, key);
      }
    }
  }

  /** A top-level item files a fresh key with no children and leaves every taken key as it was. */
  lemma StepTopEntry(acc: map<string, MenuEntry>, last: MenuItem, key: string)
    requires IsTop(last)
    ensures key in Step(acc, last) <==> key in acc || PageKey(last) == key
    ensures key in acc ==> Step(acc, last)[key] == acc[key]
    ensures key !in acc && PageKey(last) == key ==> Step(acc, last)[key] == MenuEntry(last, [])
  {
  }

  lemma StepChild(front: seq<MenuItem>, last: MenuItem, key: string)
    requires !IsTop(last) && last.parentId.value in Tree(front)
    requires TreeFacts(front, key) && TreeFacts(front, last.parentId.value)
    ensures TreeFacts(front + [last], key)
  {
    var s := front + [last];
    var p := last.parentId.value;
    assert s[..|s| - 1] == front && s[|s| - 1] == last;
    var before := Tree(front);
    var after := Step(before, last);
    assert Tree(s) == after;
    FilterSnoc(front, last, TopWith(key));
    FilterSnoc(front, last, ChildOf(key));
    assert Filter(s, TopWith(key)) == Filter(front, TopWith(key));
    if key == p {
      assert after[key] == before[key].(children := before[key].children + [last]);
    } else if key in before {
      assert after[key] == before[key];
    }
  }

  /**
   * With top-level items first and every parent present, the tree has an entry
   * exactly for the keys of top-level items; the entry holds the first top-level
   * item with that key and every child of that key, in order.
   */
  lemma {:induction false} TreeMeaning(s: seq<MenuItem>, key: string)
    requires TopLevelFirst(s) && ParentsPresent(s)
    ensures TreeFacts(s, key)
  {
    if |s| > 0 {
      var front, last := s[..|s| - 1], s[|s| - 1];
      assert s == front + [last];
      PrefixFacts(s);
      TreeMeaning(front, key);
      if IsTop(last) {
        StepTop(front, last, key);
      } else {
        var p := last.parentId.value;
        assert last in s;
        var t :| t in s && IsTop(t) && PageKey(t) == p;
        assert t in front;
        FilterSnoc(front, last, TopWith(p));
        assert t in Filter(front, TopWith(p));
        TreeMeaning(front, p);
        StepChild(front, last, key);
      }
    }
  }

  lemma ParentsPresentPermutation(s: seq<MenuItem>, t: seq<MenuItem>)
    requires ParentsPresent(s) && multiset(s) == multiset(t)
    ensures ParentsPresent(t)
  {
    forall m | m in t && !IsTop(m)
      ensures exists u :: u in t && IsTop(u) && PageKey(u) == m.parentId.value
    {
      assert multiset(t)[m] > 0;
      assert m in s;
      var u :| u in s && IsTop(u) && PageKey(u) == m.parentId.value;
      assert multiset(s)[u] > 0;
      assert u in t;
    }
  }

  /** Sorting by parent key puts every top-level item first: its key `''` is the least. */
  lemma SortedTopLevelFirst(s: seq<MenuItem>)
    requires SortedBy(s, ByStringKey(ParentKey))
    ensures TopLevelFirst(s)
  {
    forall i, j | 0 <= i < j < |s| && IsTop(s[j])
      ensures IsTop(s[i])
    {
      assert StrLessEq(ParentKey(s[i]), ParentKey(s[j]));
      assert ParentKey(s[j]) == "";
    }
  }

  function EntrySort(e: MenuEntry): int {
    e.item.sort
  }

  function EntryKey(e: MenuEntry): string {
    PageKey(e.item)
  }

  /** The entries listed by `names`, in that order. */
  function EntriesOf(acc: map<string, MenuEntry>, names: seq<string>): (r: seq<MenuEntry>)
    requires forall k :: k in names ==> k in acc
    ensures |r| == |names|
    ensures forall j :: 0 <= j < |r| ==> r[j] == acc[names[j]]
  {
    seq(|names|, j requires 0 <= j < |names| => acc[names[j]])
  }

  /** The top-level entries as the menu lists them: by `sort`, ascending. */
  function BySort(values: seq<MenuEntry>): (r: seq<MenuEntry>)
    ensures SortedBy(r, ByIntKey(EntrySort))
    ensures multiset(r) == multiset(values)
  {
    IntKeyOrders(EntrySort);
    SortBy(values, ByIntKey(EntrySort))
  }

  /** `e` is the entry of its key: the first top-level item with that key, and all the key's children in order. */
  ghost predicate EntryFor(menu: seq<MenuItem>, e: MenuEntry) {
    && |Filter(menu, TopWith(EntryKey(e)))| > 0
    && e.item == Filter(menu, TopWith(EntryKey(e)))[0]
    && e.children == Filter(menu, ChildOf(EntryKey(e)))
  }

  /** What the menu shows for a sorted menu: one entry per top-level key, each the entry of its key. */
  ghost predicate ListsTree(menu: seq<MenuItem>, entries: seq<MenuEntry>) {
    && (forall i, j :: 0 <= i < j < |entries| ==> EntryKey(entries[i]) != EntryKey(entries[j]))
    && (forall m :: m in menu && IsTop(m) ==> exists i :: 0 <= i < |entries| && EntryKey(entries[i]) == PageKey(m))
    && (forall i :: 0 <= i < |entries| ==> EntryFor(menu, entries[i]))
  }

  lemma TreeEntries(menu: seq<MenuItem>, names: seq<string>)
    requires TopLevelFirst(menu) && ParentsPresent(menu)
    requires forall k :: k in names ==> k in Tree(menu)
    ensures var values := EntriesOf(Tree(menu), names);
      forall j :: 0 <= j < |values| ==> EntryKey(values[j]) == names[j] && EntryFor(menu, values[j])
  {
    var values := EntriesOf(Tree(menu), names);
    forall j | 0 <= j < |values|
      ensures EntryKey(values[j]) == names[j] && EntryFor(menu, values[j])
    {
      TreeMeaning(menu, names[j]);
      var tops := Filter(menu, TopWith(names[j]));
      assert tops[0] in tops;
    }
  }

  lemma KeysStayDistinct(names: seq<string>, values: seq<MenuEntry>, entries: seq<MenuEntry>)
    requires Distinct(names) && |values| == |names|
    requires forall j :: 0 <= j < |values| ==> EntryKey(values[j]) == names[j]
    requires multiset(entries) == multiset(values)
    ensures forall i, j :: 0 <= i < j < |entries| ==> EntryKey(entries[i]) != EntryKey(entries[j])
  {
    assert Distinct(values) by {
      forall a, b | 0 <= a < b < |values|
        ensures values[a] != values[b]
      {
        assert names[a] != names[b];
      }
    }
    DistinctPermutation(entries, values);
    forall i, j | 0 <= i < j < |entries|
      ensures EntryKey(entries[i]) != EntryKey(entries[j])
    {
      assert multiset(values)[entries[i]] > 0 && multiset(values)[entries[j]] > 0;
      var a :| 0 <= a < |values| && values[a] == entries[i];
      var b :| 0 <= b < |values| && values[b] == entries[j];
      assert entries[i] != entries[j];
      assert names[a] != names[b] by {
        if a < b {} else {}
      }
    }
  }

  /** The entries taken from the tree in key order, then sorted, list the tree. */
  lemma EntriesListTree(menu: seq<MenuItem>, names: seq<string>, entries: seq<MenuEntry>)
    requires TopLevelFirst(menu) && ParentsPresent(menu)
    requires Distinct(names)
    requires forall k :: k in Tree(menu) <==> k in names
    requires multiset(entries) == multiset(EntriesOf(Tree(menu), names))
    ensures ListsTree(menu, entries)
  {
    var values := EntriesOf(Tree(menu), names);
    TreeEntries(menu, names);
    KeysStayDistinct(names, values, entries);
    forall i | 0 <= i < |entries|
      ensures EntryFor(menu, entries[i])
    {
      assert multiset(values)[entries[i]] > 0;
      var j :| 0 <= j < |values| && values[j] == entries[i];
    }
    forall m | m in menu && IsTop(m)
      ensures exists i :: 0 <= i < |entries| && EntryKey(entries[i]) == PageKey(m)
    {
      var k := PageKey(m);
      assert m in Filter(menu, TopWith(k));
      TreeMeaning(menu, k);
      var j :| 0 <= j < |names| && names[j] == k;
      assert multiset(entries)[values[j]] > 0;
      var i :| 0 <= i < |entries| && entries[i] == values[j];
    }
  }

  lemma TreeSnoc(menu: seq<MenuItem>, i: int)
    requires 0 <= i < |menu|
    ensures Tree(menu[..i + 1]) == Step(Tree(menu[..i]), menu[i])
  {
    assert menu[..i + 1][..i] == menu[..i] && menu[..i + 1][i] == menu[i];
  }

  /**
   * The `reduce` of the header: files each top-level item under its page key and
   * each child under its parent's entry; `names` lists the keys in order of creation.
   */
  method FoldTree(menu: seq<MenuItem>) returns (acc: map<string, MenuEntry>, names: seq<string>)
    ensures acc == Tree(menu)
    ensures Distinct(names)
    ensures forall k :: k in acc <==> k in names
  {
    acc := map[];
    names := [];
    var i := 0;
    while i < |menu|
      invariant 0 <= i <= |menu|
      invariant acc == Tree(menu[..i])
      invariant Distinct(names)
      invariant forall k :: k in acc <==> k in names
    {
      var curr := menu[i];
      TreeSnoc(menu, i);
      var key := PageKey(curr);
      if key !in acc && !Given(curr.parentId) {
        acc := acc[key := MenuEntry(curr, [])];
        names := names + [key];
      } else if Given(curr.parentId) && curr.parentId.value in acc {
        var p := curr.parentId.value;
        acc := acc[p := acc[p].(children := acc[p].children + [curr])];
      }
      i := i + 1;
    }
    assert menu[..i] == menu;
  }

  /**
   * The header's menu: sorts `cms.menuItems` in place by parent key, folds it
   * into the tree, and lists the top-level entries by `sort`.
   */
  method BuildMenu(cms: Cms) returns (entries: seq<MenuEntry>)
    requires ParentsPresent(cms.menuItems)
    modifies cms
    ensures SortedBy(cms.menuItems, ByStringKey(ParentKey))
    ensures multiset(cms.menuItems) == multiset(old(cms.menuItems))
    ensures cms.files == old(cms.files) && cms.podcasts == old(cms.podcasts)
    ensures cms.pictures == old(cms.pictures) && cms.events == old(cms.events)
    ensures SortedBy(entries, ByIntKey(EntrySort))
    ensures ListsTree(cms.menuItems, entries)
  {
    StringKeyOrders(ParentKey);
    var menu := SortBy(cms.menuItems, ByStringKey(ParentKey));
    SortedTopLevelFirst(menu);
    ParentsPresentPermutation(cms.menuItems, menu);
    cms.menuItems := menu;
    var acc, names := FoldTree(menu);
    entries := BySort(EntriesOf(acc, names));
    EntriesListTree(menu, names, entries);
  }

  /** An entry is rendered unless its position is None or Bottom. */
  predicate Visible(e: MenuEntry) {
    e.item.position != PositionNone && e.item.position != PositionBottom
  }

  /** A rendered menu element: a link, or a dropdown of child links. */
  datatype Nav = Link(text: string, href: string) | Dropdown(text: string, links: seq<Nav>)

  function Href(m: MenuItem): string {
    "/" + m.permalink
  }

  function ChildLink(m: MenuItem): Nav {
    Link(m.title, Href(m))
  }

  /** The children of a dropdown, ascending by `sort`. */
  function SortedChildren(children: seq<MenuItem>): (r: seq<MenuItem>)
    ensures SortedBy(r, ByIntKey(SortKey))
    ensures multiset(r) == multiset(children)
  {
    IntKeyOrders(SortKey);
    SortBy(children, ByIntKey(SortKey))
  }

  function SortKey(m: MenuItem): int {
    m.sort
  }

  /** A childless entry is a link to its permalink; otherwise a dropdown of its children's links in `sort` order. */
  function NavOf(e: MenuEntry): (r: Nav)
    ensures r.Link? <==> |e.children| == 0
    ensures r.text == e.item.title
    ensures r.Link? ==> r.href == "/" + e.item.permalink
    ensures r.Dropdown? ==> |r.links| == |e.children|
  {
    if |e.children| == 0 then Link(e.item.title, Href(e.item))
    else
      var sorted := SortedChildren(e.children);
      assert |sorted| == |multiset(e.children)|;
      Dropdown(e.item.title, Map(sorted, ChildLink))
  }

  /** The rendered menu: the visible entries in order, each as its link or dropdown. */
  function Render(entries: seq<MenuEntry>): (r: seq<Nav>)
    ensures |r| <= |entries|
    ensures forall e :: e in entries && Visible(e) ==> NavOf(e) in r
    ensures forall n :: n in r ==> exists e :: e in entries && Visible(e) && n == NavOf(e)
    ensures |r| == |Filter(entries, Visible)|
    ensures forall j :: 0 <= j < |r| ==> r[j] == NavOf(Filter(entries, Visible)[j])
  {
    var shown := Filter(entries, Visible);
    var r := Map(shown, NavOf);
    assert forall j :: 0 <= j < |shown| ==> shown[j] in shown;
    r
  }

  /**
   * Rendered in the order `BuildMenu` lists the entries: the visible entries,
   * ascending by `sort`, each as its link or dropdown.
   */
  lemma RenderInSortOrder(entries: seq<MenuEntry>)
    requires SortedBy(entries, ByIntKey(EntrySort))
    ensures var shown := Filter(entries, Visible);
      && (forall e :: e in shown <==> e in entries && Visible(e))
      && SortedBy(shown, ByIntKey(EntrySort))
      && |Render(entries)| == |shown|
      && forall j :: 0 <= j < |shown| ==> Render(entries)[j] == NavOf(shown[j])
  {
    FilterSorted(entries, Visible, ByIntKey(EntrySort));
  }

  /** Every link of a dropdown goes to one of the entry's children. */
  lemma DropdownLinksFromChildren(e: MenuEntry)
    requires |e.children| > 0
    ensures NavOf(e).Dropdown?
    ensures forall j :: 0 <= j < |NavOf(e).links| ==>
      exists c :: c in e.children && NavOf(e).links[j] == Link(c.title, "/" + c.permalink)
  {
    var sorted := SortedChildren(e.children);
    var links := Map(sorted, ChildLink);
    assert NavOf(e).links == links;
    forall j | 0 <= j < |links|
      ensures exists c :: c in e.children && links[j] == Link(c.title, "/" + c.permalink)
    {
      assert multiset(sorted)[sorted[j]] > 0;
      assert sorted[j] in e.children;
      assert links[j] == ChildLink(sorted[j]);
    }
  }

  /** Every child of the entry has its link in the dropdown. */
  lemma DropdownCoversChildren(e: MenuEntry)
    requires |e.children| > 0
    ensures NavOf(e).Dropdown?
    ensures forall c :: c in e.children ==> Link(c.title, "/" + c.permalink) in NavOf(e).links
  {
    var sorted := SortedChildren(e.children);
    var links := Map(sorted, ChildLink);
    assert NavOf(e).links == links;
    forall c | c in e.children
      ensures Link(c.title, "/" + c.permalink) in links
    {
      assert multiset(e.children)[c] > 0;
      var j :| 0 <= j < |sorted| && sorted[j] == c;
      assert links[j] == ChildLink(c);
    }
  }

  /**
   * A dropdown lists one link per child, each to the child's permalink, in the
   * order of a rearrangement of the children ascending by `sort`.
   */
  lemma DropdownLinks(e: MenuEntry)
    requires |e.children| > 0
    ensures var n := NavOf(e);
      && n.Dropdown?
      && (forall j :: 0 <= j < |n.links| ==> exists c :: c in e.children && n.links[j] == Link(c.title, "/" + c.permalink))
      && (forall c :: c in e.children ==> Link(c.title, "/" + c.permalink) in n.links)
    ensures exists sorted: seq<MenuItem> ::
      && SortedBy(sorted, ByIntKey(SortKey)) && multiset(sorted) == multiset(e.children)
      && |NavOf(e).links| == |sorted|
      && forall j :: 0 <= j < |sorted| ==> NavOf(e).links[j] == Link(sorted[j].title, "/" + sorted[j].permalink)
  {
    DropdownLinksFromChildren(e);
    DropdownCoversChildren(e);
    DropdownInSortOrder(e);
  }

  /** The dropdown's links follow the children sorted ascending by `sort`. */
  lemma DropdownInSortOrder(e: MenuEntry)
    requires |e.children| > 0
    ensures NavOf(e).Dropdown?
    ensures exists sorted: seq<MenuItem> ::
      && SortedBy(sorted, ByIntKey(SortKey)) && multiset(sorted) == multiset(e.children)
      && |NavOf(e).links| == |sorted|
      && forall j :: 0 <= j < |sorted| ==> NavOf(e).links[j] == Link(sorted[j].title, "/" + sorted[j].permalink)
  {
    var sorted := SortedChildren(e.children);
    assert NavOf(e).links == Map(sorted, ChildLink);
  }
}
