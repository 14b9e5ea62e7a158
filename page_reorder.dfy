/**
 * The page reordering screen: menu items grouped by parent, and the update that
 * follows dragging an item to a new place inside its group.
 */
module PageReorder {
  import opened Wrappers
  import opened Js
  import opened Lists
  import opened CmsModel
  import Repository

  const TopLevelKey := "__top_level__"

  /** `i.parentId || '__top_level__'`. */
  function GroupKey(m: MenuItem): string {
    if Given(m.parentId) then m.parentId.value else TopLevelKey
  }

  function InGroup(key: string): MenuItem -> bool {
    (m: MenuItem) => GroupKey(m) == key
  }

  function SortOf(m: MenuItem): int {
    m.sort
  }

  /** One row of a sortable group: `{id: pageId, label: title}`. */
  datatype Entry = Entry(id: Option<string>, text: string)

  function ToEntry(m: MenuItem): Entry {
    Entry(m.pageId, m.title)
  }

  /** A group as it is being filled: the `parentTitle` of its first item, and its rows. */
  datatype Bucket = Bucket(parentTitle: Option<string>, entries: seq<Entry>)

  /** A sortable group as shown. */
  datatype Group = Group(id: string, title: string, items: seq<Entry>)

  /** A missing parent title prints as `undefined` in the template string. */
  function TemplateText(s: Option<string>): string {
    if s.Some? then s.value else "undefined"
  }

  /** `'Top Menu'` for the top level, otherwise the parent's title followed by `' (Sub-menu)'`. */
  function GroupTitle(key: string, parentTitle: Option<string>): string {
    if key == TopLevelKey then "Top Menu" else TemplateText(parentTitle) + " (Sub-menu)"
  }

  /** The group keys of `s`, each once, in order of first appearance. */
  function KeysOf(s: seq<MenuItem>): (r: seq<string>)
    ensures Distinct(r)
  {
    if |s| == 0 then []
    else
      var r0 := KeysOf(s[..|s| - 1]);
      var key := GroupKey(s[|s| - 1]);
      if key in r0 then r0 else r0 + [key]
  }

  /** The members of group `key` in `s`, in order. */
  function Members(s: seq<MenuItem>, key: string): (r: seq<MenuItem>)
    ensures forall m :: m in r <==> m in s && GroupKey(m) == key
  {
    Filter(s, InGroup(key))
  }

  /** One step of the `forEach`: open the item's bucket if needed, then push its row. */
  function AddToBucket(buckets: map<string, Bucket>, m: MenuItem): (r: map<string, Bucket>)
    ensures r.Keys == buckets.Keys + {GroupKey(m)}
    ensures forall k :: k in buckets && k != GroupKey(m) ==> r[k] == buckets[k]
  {
    var key := GroupKey(m);
    var b := if key in buckets then buckets[key] else Bucket(m.parentTitle, []);
    buckets[key := b.(entries := b.entries + [ToEntry(m)])]
  }

  /** The buckets `mapMenuItems` has filled after visiting `s`. */
  function Buckets(s: seq<MenuItem>): (r: map<string, Bucket>)
    ensures forall m :: m in s ==> GroupKey(m) in r
  {
    if |s| == 0 then map[]
    else
      var front, last := s[..|s| - 1], s[|s| - 1];
      assert forall m :: m in s ==> m in front || m == last;
      AddToBucket(Buckets(front), last)
  }

  lemma MembersSnoc(s: seq<MenuItem>, m: MenuItem, key: string)
    ensures Members(s + [m], key) == if GroupKey(m) == key then Members(s, key) + [m] else Members(s, key)
  {
    FilterSnoc(s, m, InGroup(key));
  }

  /**
   * A bucket exists exactly for the keys that occur; it holds the parent title
   * of the first member and one row per member, in order.
   */
  lemma {:induction false} BucketsMeaning(s: seq<MenuItem>, key: string)
    ensures key in Buckets(s) <==> key in KeysOf(s)
    ensures key in KeysOf(s) <==> |Members(s, key)| > 0
    ensures key in Buckets(s) ==>
      && Buckets(s)[key].parentTitle == Members(s, key)[0].parentTitle
      && Buckets(s)[key].entries == Map(Members(s, key), ToEntry)
  {
    if |s| > 0 {
      var front, last := s[..|s| - 1], s[|s| - 1];
      assert s == front + [last];
      BucketsMeaning(front, key);
      MembersSnoc(front, last, key);
      if GroupKey(last) == key {
        MapSnoc(Members(front, key), last, ToEntry);
      }
    }
  }

  /** The groups for `names`, in that order, built from their buckets. */
  function Assemble(buckets: map<string, Bucket>, names: seq<string>): (r: seq<Group>)
    requires forall k :: k in names ==> k in buckets
    ensures |r| == |names|
    ensures forall j :: 0 <= j < |r| ==>
      && r[j].id == names[j]
      && r[j].title == GroupTitle(names[j], buckets[names[j]].parentTitle)
      && r[j].items == buckets[names[j]].entries
  {
    seq(|names|, j requires 0 <= j < |names| => Group(names[j], GroupTitle(names[j], buckets[names[j]].parentTitle), buckets[names[j]].entries))
  }

  function KeyText(k: string): string {
    k
  }

  /** `.sort((a, b) => a > b ? -1 : 1)` on the bucket names. */
  function DescendingNames(keys: seq<string>): (r: seq<string>)
    ensures SortedBy(r, ByStringKeyDesc(KeyText))
    ensures multiset(r) == multiset(keys)
  {
    StringKeyOrders(KeyText);
    SortBy(keys, ByStringKeyDesc(KeyText))
  }

  /** Distinct names sorted descending are strictly descending. */
  lemma StrictlyDescending(names: seq<string>)
    requires Distinct(names) && SortedBy(names, ByStringKeyDesc(KeyText))
    ensures forall i, j :: 0 <= i < j < |names| ==> StrLess(names[j], names[i])
  {
  }

  /**
   * What the sortable groups of `items` are, given the items sorted by `sort`:
   * one group per parent key, every item's key among them, keys strictly
   * descending, each group titled after its first member's parent and holding
   * one row per member in sorted order.
   */
  ghost predicate GroupsOf(items: seq<MenuItem>, sorted: seq<MenuItem>, groups: seq<Group>) {
    && |groups| == |KeysOf(sorted)|
    && (forall m :: m in items ==> exists j :: 0 <= j < |groups| && groups[j].id == GroupKey(m))
    && (forall i, j :: 0 <= i < j < |groups| ==> StrLess(groups[j].id, groups[i].id))
    && (forall j :: 0 <= j < |groups| ==>
          && |Members(sorted, groups[j].id)| > 0
          && groups[j].title == GroupTitle(groups[j].id, Members(sorted, groups[j].id)[0].parentTitle)
          && groups[j].items == Map(Members(sorted, groups[j].id), ToEntry))
  }

  /** The groups of `items` sorted by their `sort` values. */
  ghost predicate GroupedFrom(items: seq<MenuItem>, groups: seq<Group>) {
    IntKeyOrders(SortOf);
    GroupsOf(items, SortBy(items, ByIntKey(SortOf)), groups)
  }

  /**
   * `mapMenuItems`: the items sorted by `sort`, bucketed by parent, with the
   * buckets ordered by key, descending.
   */
  method MapMenuItems(items: seq<MenuItem>) returns (groups: seq<Group>)
    ensures GroupedFrom(items, groups)
  {
    IntKeyOrders(SortOf);
    var sorted := SortBy(items, ByIntKey(SortOf));
    var buckets: map<string, Bucket> := map[];
    var keys: seq<string> := [];
    var i := 0;
    while i < |sorted|
      invariant 0 <= i <= |sorted|
      invariant keys == KeysOf(sorted[..i])
      invariant buckets == Buckets(sorted[..i])
    {
      var m := sorted[i];
      BucketsStep(sorted, i);
      if GroupKey(m) !in buckets {
        keys := keys + [GroupKey(m)];
      }
      buckets := AddToBucket(buckets, m);
      i := i + 1;
    }
    assert sorted[..i] == sorted;
    var names := DescendingNames(keys);
    AssembledGroups(items, sorted, names);
    groups := Assemble(buckets, names);
  }

  /** One step of the bucketing loop: the new item opens a bucket exactly when its key is new. */
  lemma BucketsStep(sorted: seq<MenuItem>, i: int)
    requires 0 <= i < |sorted|
    ensures Buckets(sorted[..i + 1]) == AddToBucket(Buckets(sorted[..i]), sorted[i])
    ensures KeysOf(sorted[..i + 1]) ==
      if GroupKey(sorted[i]) in Buckets(sorted[..i]) then KeysOf(sorted[..i]) else KeysOf(sorted[..i]) + [GroupKey(sorted[i])]
  {
    var visited := sorted[..i + 1];
    assert visited[..i] == sorted[..i] && visited[i] == sorted[i];
    BucketsMeaning(sorted[..i], GroupKey(sorted[i]));
  }

  /** Every name of the sorted permutation of the keys has a bucket, built from that group's members. */
  lemma NamesHaveBuckets(sorted: seq<MenuItem>, names: seq<string>)
    requires multiset(names) == multiset(KeysOf(sorted))
    ensures forall k :: k in names ==>
      && k in KeysOf(sorted) && k in Buckets(sorted)
      && |Members(sorted, k)| > 0
      && Buckets(sorted)[k].parentTitle == Members(sorted, k)[0].parentTitle
      && Buckets(sorted)[k].entries == Map(Members(sorted, k), ToEntry)
  {
    forall k | k in names
      ensures k in KeysOf(sorted) && k in Buckets(sorted)
      ensures |Members(sorted, k)| > 0
      ensures Buckets(sorted)[k].parentTitle == Members(sorted, k)[0].parentTitle
      ensures Buckets(sorted)[k].entries == Map(Members(sorted, k), ToEntry)
    {
      assert multiset(names)[k] > 0;
      BucketsMeaning(sorted, k);
    }
  }

  /** Every item's key is one of the names. */
  lemma NamesCoverItems(items: seq<MenuItem>, sorted: seq<MenuItem>, names: seq<string>)
    requires multiset(sorted) == multiset(items)
    requires multiset(names) == multiset(KeysOf(sorted))
    ensures forall m :: m in items ==> GroupKey(m) in names
  {
    forall m | m in items
      ensures GroupKey(m) in names
    {
      assert multiset(items)[m] > 0;
      assert m in sorted;
      BucketsMeaning(sorted, GroupKey(m));
      assert m in Members(sorted, GroupKey(m));
      assert multiset(KeysOf(sorted))[GroupKey(m)] > 0;
    }
  }

  /** The groups assembled from the buckets of the sorted items, in descending key order. */
  lemma AssembledGroups(items: seq<MenuItem>, sorted: seq<MenuItem>, names: seq<string>)
    requires multiset(sorted) == multiset(items)
    requires multiset(names) == multiset(KeysOf(sorted))
    requires SortedBy(names, ByStringKeyDesc(KeyText))
    ensures forall k :: k in names ==> k in Buckets(sorted)
    ensures GroupsOf(items, sorted, Assemble(Buckets(sorted), names))
  {
    var keys := KeysOf(sorted);
    DistinctPermutation(names, keys);
    StrictlyDescending(names);
    NamesHaveBuckets(sorted, names);
    NamesCoverItems(items, sorted, names);
    var groups := Assemble(Buckets(sorted), names);
    assert |names| == |keys| by {
      assert |multiset(names)| == |multiset(keys)|;
    }
    forall m | m in items
      ensures exists j :: 0 <= j < |groups| && groups[j].id == GroupKey(m)
    {
      var j :| 0 <= j < |names| && names[j] == GroupKey(m);
      assert groups[j].id == GroupKey(m);
    }
  }

  /**
   * Within a group the rows follow the items' `sort` values upwards, and they are
   * exactly the items of that group, whatever their order in the menu.
   */
  lemma GroupMembersOrdered(items: seq<MenuItem>, key: string)
    ensures var members := Members(SortBy(items, ByIntKey(SortOf)), key);
      && (forall i, j :: 0 <= i < j < |members| ==> members[i].sort <= members[j].sort)
      && multiset(members) == multiset(Filter(items, InGroup(key)))
  {
    IntKeyOrders(SortOf);
    var sorted := SortBy(items, ByIntKey(SortOf));
    FilterSorted(sorted, InGroup(key), ByIntKey(SortOf));
    FilterPermutation(sorted, items, InGroup(key));
  }

  /** The reorder screen lists only the items that are shown somewhere. */
  function Shown(m: MenuItem): bool {
    m.position != PositionNone
  }

  // ---- onSortEnd ----

  /** `arrayMove`: the element at `from` taken out and put back at `to`. */
  function ArrayMove<T>(s: seq<T>, from: nat, to: nat): (r: seq<T>)
    requires from < |s| && to < |s|
    ensures |r| == |s| && r[to] == s[from]
    ensures r[..to] + r[to + 1..] == s[..from] + s[from + 1..]
    ensures multiset(r) == multiset(s)
  {
    var rest := s[..from] + s[from + 1..];
    assert s == s[..from] + [s[from]] + s[from + 1..];
    assert multiset(s) == multiset(rest) + multiset{s[from]};
    assert rest == rest[..to] + rest[to..];
    var r := rest[..to] + [s[from]] + rest[to..];
    assert r[..to] == rest[..to] && r[to + 1..] == rest[to..];
    assert multiset(r) == multiset(rest[..to]) + multiset{s[from]} + multiset(rest[to..]);
    r
  }

  /** `findIndex(i => i.id === pageId)`: the first row with that page id, or -1. */
  function FindEntry(entries: seq<Entry>, pageId: Option<string>): (r: int)
    ensures -1 <= r < |entries|
    ensures r >= 0 ==> entries[r].id == pageId && forall j :: 0 <= j < r ==> entries[j].id != pageId
    ensures r == -1 <==> forall j :: 0 <= j < |entries| ==> entries[j].id != pageId
  {
    if |entries| == 0 then -1
    else if entries[0].id == pageId then 0
    else
      var r := FindEntry(entries[1..], pageId);
      if r == -1 then -1 else r + 1
  }

  /** A menu item after the drop: its position in the moved group, if it is in it. */
  function Resorted(m: MenuItem, entries: seq<Entry>): (r: MenuItem)
    ensures r == m.(sort := r.sort)
    ensures (exists j :: 0 <= j < |entries| && entries[j].id == m.pageId) ==>
      0 <= r.sort < |entries| && entries[r.sort].id == m.pageId && forall j :: 0 <= j < r.sort ==> entries[j].id != m.pageId
    ensures (forall j :: 0 <= j < |entries| ==> entries[j].id != m.pageId) ==> r == m
  {
    var k := FindEntry(entries, m.pageId);
    if k == -1 then m else m.(sort := k)
  }

  function IdValue(id: Option<string>): Value {
    if id.Some? then Str(id.value) else Undefined
  }

  /** `{id: mi.pageId, menuDetails: {sort}}`. */
  function SortPatch(pageId: Option<string>, sort: int): Record {
    map["id" := IdValue(pageId), "menuDetails" := Obj(map["sort" := Num(sort)])]
  }

  /**
   * Merged into a stored page whose `menuDetails` is an object, the patch sets `sort` and
   * keeps the other menu details and every other field but `id`.
   */
  lemma SortPatchMerged(stored: Record, pageId: Option<string>, sort: int)
    requires "menuDetails" in stored && stored["menuDetails"].Obj?
    ensures var r := Repository.Merge(stored, SortPatch(pageId, sort));
      && r["menuDetails"].Obj? && r["menuDetails"].fields["sort"] == Num(sort)
      && (forall f :: f in stored["menuDetails"].fields && f != "sort" ==>
            f in r["menuDetails"].fields && r["menuDetails"].fields[f] == stored["menuDetails"].fields[f])
      && (forall k :: k in stored && k != "id" && k != "menuDetails" ==> k in r && r[k] == stored[k])
  {
    var patch := SortPatch(pageId, sort);
    var details := map["sort" := Num(sort)];
    assert patch.Keys == {"id", "menuDetails"} && patch["menuDetails"] == Obj(details);
    assert Repository.Merge(stored, patch)["menuDetails"] == Obj(Repository.Merge(stored["menuDetails"].fields, details));
  }

  /** The patches the drop sends, one for each menu item found in the moved group, in menu order. */
  function SortPatches(items: seq<MenuItem>, entries: seq<Entry>): (r: seq<Effect>)
    ensures |r| <= |items|
    ensures forall e :: e in r ==>
      (exists m :: m in items && FindEntry(entries, m.pageId) != -1 && e == PatchDocument(SortPatch(m.pageId, FindEntry(entries, m.pageId))))
  {
    if |items| == 0 then []
    else
      var m := items[|items| - 1];
      var k := FindEntry(entries, m.pageId);
      var front := SortPatches(items[..|items| - 1], entries);
      assert forall x :: x in items[..|items| - 1] ==> x in items;
      if k == -1 then front else front + [PatchDocument(SortPatch(m.pageId, k))]
  }

  /** Whether a menu item belongs to the moved group. */
  function Found(entries: seq<Entry>): MenuItem -> bool {
    (m: MenuItem) => FindEntry(entries, m.pageId) != -1
  }

  /** The patch for an item of the moved group: its id and its new row number. */
  function PatchOf(entries: seq<Entry>): MenuItem -> Effect {
    (m: MenuItem) => PatchDocument(SortPatch(m.pageId, FindEntry(entries, m.pageId)))
  }

  /** The patches sent are those of the group's items, in menu order, one each, with the row number as `sort`. */
  lemma {:induction false} SortPatchesInOrder(items: seq<MenuItem>, entries: seq<Entry>)
    ensures SortPatches(items, entries) == Map(Filter(items, Found(entries)), PatchOf(entries))
  {
    if |items| > 0 {
      var n := |items| - 1;
      var front, x := items[..n], items[n];
      SortPatchesInOrder(front, entries);
      assert items == front + [x];
      var shown := Filter(front, Found(entries));
      FilterSnoc(front, x, Found(entries));
      if Found(entries)(x) {
        MapSnoc(shown, x, PatchOf(entries));
        assert SortPatches(items, entries) == SortPatches(front, entries) + [PatchOf(entries)(x)];
      } else {
        assert SortPatches(items, entries) == SortPatches(front, entries);
      }
    }
  }

  /** One step of the drop's loop: the patches of one more item. */
  lemma SortPatchesStep(items: seq<MenuItem>, i: int, entries: seq<Entry>)
    requires 0 <= i < |items|
    ensures FindEntry(entries, items[i].pageId) == -1 ==>
      SortPatches(items[..i + 1], entries) == SortPatches(items[..i], entries)
    ensures FindEntry(entries, items[i].pageId) != -1 ==>
      SortPatches(items[..i + 1], entries) ==
        SortPatches(items[..i], entries) + [PatchDocument(SortPatch(items[i].pageId, FindEntry(entries, items[i].pageId)))]
  {
    assert items[..i + 1][..i] == items[..i];
  }

  /** An item whose page sits at row `k` of the moved group, with no other row for that page, gets `sort` = `k`; an item not in the group keeps its `sort`. */
  lemma ResortedSort(m: MenuItem, entries: seq<Entry>, k: int)
    requires 0 <= k < |entries| ==> entries[k].id == m.pageId && forall j :: 0 <= j < |entries| && j != k ==> entries[j].id != m.pageId
    ensures 0 <= k < |entries| ==> Resorted(m, entries) == m.(sort := k)
    ensures (forall j :: 0 <= j < |entries| ==> entries[j].id != m.pageId) ==> Resorted(m, entries) == m
  {
  }

  /**
   * The `forEach` of `onSortEnd` over the menu items: each item found in the
   * moved group takes its row number as `sort` and is sent to the backend.
   */
  method ResortAll(before: seq<MenuItem>, moved: seq<Entry>) returns (items: seq<MenuItem>, patches: seq<Effect>)
    ensures |items| == |before|
    ensures forall i :: 0 <= i < |items| ==> items[i] == Resorted(before[i], moved)
    ensures patches == SortPatches(before, moved)
  {
    items := before;
    patches := [];
    var i := 0;
    while i < |items|
      invariant 0 <= i <= |items| == |before|
      invariant forall j :: 0 <= j < i ==> items[j] == Resorted(before[j], moved)
      invariant forall j :: i <= j < |items| ==> items[j] == before[j]
      invariant patches == SortPatches(before[..i], moved)
    {
      var mi := items[i];
      var sort := FindEntry(moved, mi.pageId);
      SortPatchesStep(before, i, moved);
      if sort == -1 {
        sort := mi.sort;
      } else {
        patches := patches + [PatchDocument(SortPatch(mi.pageId, sort))];
      }
      items := items[i := mi.(sort := sort)];
      i := i + 1;
    }
    assert before[..i] == before;
  }

  /** The reorder screen. */
  class ReorderView {
    var groups: seq<Group>
    var effects: seq<Effect>

    constructor (cms: Cms)
      ensures GroupedFrom(Filter(cms.menuItems, Shown), groups)
      ensures effects == []
    {
      var initial := MapMenuItems(Filter(cms.menuItems, Shown));
      groups := initial;
      effects := [];
    }

    /**
     * `onSortEnd`: moves the row inside its group, then gives every menu item of
     * that group its row number as `sort` and sends it to the backend; the other
     * items keep their `sort`.
     */
    method OnSortEnd(cms: Cms, oldIndex: nat, newIndex: nat, collection: nat)
      requires collection < |groups|
      requires oldIndex < |groups[collection].items| && newIndex < |groups[collection].items|
      modifies this, cms
      ensures groups == old(groups)[collection := old(groups)[collection].(items := ArrayMove(old(groups)[collection].items, oldIndex, newIndex))]
      ensures var moved := groups[collection].items;
        && |cms.menuItems| == |old(cms.menuItems)|
        && (forall i :: 0 <= i < |cms.menuItems| ==> cms.menuItems[i] == Resorted(old(cms.menuItems)[i], moved))
        && effects == old(effects) + SortPatches(old(cms.menuItems), moved)
      ensures cms.files == old(cms.files) && cms.podcasts == old(cms.podcasts)
      ensures cms.pictures == old(cms.pictures) && cms.events == old(cms.events)
    {
      var group := groups[collection];
      var moved := ArrayMove(group.items, oldIndex, newIndex);
      groups := groups[collection := group.(items := moved)];
      var items, patches := ResortAll(cms.menuItems, moved);
      cms.menuItems := items;
      effects := effects + patches;
    }
  }
}
