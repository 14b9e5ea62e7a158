/**
 * The page editor: the permalink slug derived from the title, the page record
 * it validates and saves, the "parent" choices, and the menu update on submit.
 */
module PageEditor {
  import opened Wrappers
  import opened Js
  import opened Lists
  import opened Utils
  import opened Validation
  import opened Repository
  import opened PageModel
  import opened CmsModel

  // ---- the permalink slug ----

  /** `[^a-z0-9 ]` with the `i` flag: the characters the first step keeps. */
  predicate SlugChar(c: char) {
    IsAlnum(c) || c == ' '
  }

  predicate NoDoubleHyphen(s: string) {
    forall i :: 0 <= i < |s| - 1 ==> !(s[i] == '-' && s[i + 1] == '-')
  }

  /** `.replace(/[^a-z0-9 ]/gi, '')`. */
  function KeepSlugChars(s: string): (r: string)
    ensures |r| <= |s|
    ensures forall c :: c in r <==> c in s && SlugChar(c)
  {
    Filter(s, SlugChar)
  }

  /** `.replace(/\s/gi, '-')`. */
  function HyphenateSpaces(s: string): (r: string)
    ensures |r| == |s|
    ensures forall i :: 0 <= i < |s| ==> r[i] == if IsSpace(s[i]) then '-' else s[i]
  {
    seq(|s|, i requires 0 <= i < |s| => if IsSpace(s[i]) then '-' else s[i])
  }

  /** The first two steps leave only letters, digits and hyphens. */
  function Hyphenated(title: string): (r: string)
    ensures |r| <= |title|
    ensures forall c :: c in r ==> IsAlnum(c) || c == '-'
  {
    var kept := KeepSlugChars(title);
    var r := HyphenateSpaces(kept);
    forall c | c in r
      ensures IsAlnum(c) || c == '-'
    {
      var i :| 0 <= i < |r| && r[i] == c;
      assert kept[i] in kept;
    }
    r
  }

  /** `.replace(/-{2,}/gi, '-')`: every run of hyphens becomes one. */
  function CollapseHyphens(s: string): (r: string)
    ensures |r| <= |s|
    ensures forall c :: c in r ==> c in s
    ensures |s| > 0 ==> |r| > 0 && r[0] == s[0]
    ensures NoDoubleHyphen(r)
  {
    if |s| <= 1 then s
    else if s[0] == '-' && s[1] == '-' then CollapseHyphens(s[1..])
    else
      var t := CollapseHyphens(s[1..]);
      assert forall c :: c in t ==> c in s[1..];
      [s[0]] + t
  }

  /** `^-+`: the leading hyphens removed. */
  function StripLeadingHyphens(s: string): (r: string)
    ensures |r| <= |s| && r == s[|s| - |r|..]
    ensures |r| > 0 ==> r[0] != '-'
    ensures NoDoubleHyphen(s) ==> NoDoubleHyphen(r)
  {
    if |s| > 0 && s[0] == '-' then StripLeadingHyphens(s[1..]) else s
  }

  /** `-+$`: the trailing hyphens removed. */
  function StripTrailingHyphens(s: string): (r: string)
    ensures |r| <= |s| && r == s[..|r|]
    ensures |r| > 0 ==> r[|r| - 1] != '-'
    ensures NoDoubleHyphen(s) ==> NoDoubleHyphen(r)
  {
    if |s| > 0 && s[|s| - 1] == '-' then
      var r := StripTrailingHyphens(s[..|s| - 1]);
      assert s[..|s| - 1][..|r|] == s[..|r|];
      r
    else s
  }

  /** `^-+|-+$`: hyphens stripped from both ends; nothing else changes. */
  function StripHyphens(s: string): (r: string)
    ensures |r| <= |s|
    ensures forall c :: c in r ==> c in s
    ensures |r| > 0 ==> r[0] != '-' && r[|r| - 1] != '-'
    ensures NoDoubleHyphen(s) ==> NoDoubleHyphen(r)
  {
    var lead := StripLeadingHyphens(s);
    var r := StripTrailingHyphens(lead);
    forall c | c in r
      ensures c in s
    {
      var i :| 0 <= i < |r| && r[i] == c;
      assert lead[i] == s[|s| - |lead| + i];
    }
    r
  }

  lemma LowerCharFacts(c: char)
    ensures LowerChar(c) == '-' <==> c == '-'
    ensures IsAlnum(c) ==> IsLowerAlnum(LowerChar(c))
  {
  }

  /** The title's `onChange` handler: the permalink it proposes for a title. */
  function Slug(title: string): (r: string)
    ensures |r| <= |title|
    ensures forall i :: 0 <= i < |r| ==> IsLowerAlnum(r[i]) || r[i] == '-'
    ensures NoDoubleHyphen(r)
    ensures |r| > 0 ==> r[0] != '-' && r[|r| - 1] != '-'
  {
    var stripped := StripHyphens(CollapseHyphens(Hyphenated(title)));
    var r := Lower(stripped);
    forall i | 0 <= i < |r|
      ensures (r[i] == '-' <==> stripped[i] == '-') && (IsLowerAlnum(r[i]) || r[i] == '-')
    {
      assert stripped[i] in stripped;
      LowerCharFacts(stripped[i]);
    }
    r
  }

  lemma {:induction false} NoHyphenCollapse(s: string)
    requires '-' !in s
    ensures CollapseHyphens(s) == s
  {
    if |s| > 1 {
      NoHyphenCollapse(s[1..]);
    }
  }

  lemma LowerKeepsLowerAlnum(s: string)
    requires forall i :: 0 <= i < |s| ==> IsLowerAlnum(s[i])
    ensures Lower(s) == s
  {
    forall i | 0 <= i < |s|
      ensures Lower(s)[i] == s[i]
    {
      assert !('A' <= s[i] <= 'Z');
    }
  }

  /** A title already made of lower-case letters and digits is its own slug. */
  lemma SlugKeepsLowerAlnum(title: string)
    requires forall i :: 0 <= i < |title| ==> IsLowerAlnum(title[i])
    ensures Slug(title) == title
  {
    assert forall i :: 0 <= i < |title| ==> SlugChar(title[i]);
    assert KeepSlugChars(title) == title;
    assert HyphenateSpaces(title) == title;
    assert Hyphenated(title) == title;
    assert '-' !in title;
    NoHyphenCollapse(title);
    assert StripLeadingHyphens(title) == title;
    assert StripTrailingHyphens(title) == title;
    assert StripHyphens(title) == title;
    LowerKeepsLowerAlnum(title);
  }

  /** The slug depends only on the characters the first step keeps. */
  lemma SlugOfKept(x: string, y: string)
    requires KeepSlugChars(x) == KeepSlugChars(y)
    ensures Slug(x) == Slug(y)
  {
    assert Hyphenated(x) == Hyphenated(y);
  }

  lemma KeepAround(a: string, c: char, b: string)
    requires forall i :: 0 <= i < |a| ==> SlugChar(a[i])
    requires forall i :: 0 <= i < |b| ==> SlugChar(b[i])
    requires !SlugChar(c)
    ensures KeepSlugChars(a + [c] + b) == a + b
  {
    var ac := a + [c];
    assert Filter([c], SlugChar) == [] by {
      assert [c][1..] == [];
    }
    assert Filter(ac, SlugChar) == a by {
      FilterAppend(a, [c], SlugChar);
      assert Filter(a, SlugChar) == a;
    }
    assert Filter(ac + b, SlugChar) == a + b by {
      FilterAppend(ac, b, SlugChar);
      assert Filter(b, SlugChar) == b;
    }
  }

  /** A hyphen typed between two words is deleted, not kept: `my-page` becomes `mypage`. */
  lemma SlugDropsTypedHyphen(a: string, b: string)
    requires forall i :: 0 <= i < |a| ==> IsLowerAlnum(a[i])
    requires forall i :: 0 <= i < |b| ==> IsLowerAlnum(b[i])
    ensures Slug(a + "-" + b) == a + b
  {
    assert forall i :: 0 <= i < |a| ==> SlugChar(a[i]);
    assert forall i :: 0 <= i < |b| ==> SlugChar(b[i]);
    KeepAround(a, '-', b);
    assert forall i :: 0 <= i < |a + b| ==> SlugChar((a + b)[i]);
    assert KeepSlugChars(a + b) == a + b;
    SlugOfKept(a + "-" + b, a + b);
    SlugKeepsLowerAlnum(a + b);
  }

  // ---- the page record ----

  /** A choice in the "parent" drop-down. */
  datatype ParentOption = ParentOption(value: string, caption: string)

  /** What the editor's inputs hold. */
  datatype PageForm = PageForm(
    title: string, permalink: string, cover: string, content: string,
    menuTitle: string, menuDisplay: Option<int>, menuOrder: int, menuParent: Option<ParentOption>)

  /** The page's `menuDetails`: position 0 when no display option is chosen; the parent only when one is selected. */
  function MenuDetails(form: PageForm): (m: MenuItem)
    ensures m.position == (if form.menuDisplay.Some? then form.menuDisplay.value else 0)
    ensures m.pageTitle == form.title && m.permalink == form.permalink && m.title == form.menuTitle
    ensures m.parentId.Some? <==> form.menuParent.Some?
    ensures m.pageId.None?
  {
    MenuItem(
      form.menuTitle,
      if form.menuDisplay.Some? then form.menuDisplay.value else 0,
      form.menuOrder,
      if form.menuParent.Some? then Some(form.menuParent.value.value) else None,
      if form.menuParent.Some? then Some(form.menuParent.value.caption) else None,
      None,
      form.title,
      form.permalink)
  }

  function OptionalField(r: Record, key: string, v: Option<string>): Record {
    if v.Some? then r[key := Str(v.value)] else r
  }

  /** A menu item as a stored object; absent optional fields are left out. */
  function MenuItemRecord(m: MenuItem): (r: Record)
    ensures Get(r, "title") == Str(m.title) && Get(r, "position") == Num(m.position)
    ensures Get(r, "sort") == Num(m.sort) && Get(r, "pageTitle") == Str(m.pageTitle) && Get(r, "permalink") == Str(m.permalink)
  {
    var base := map["title" := Str(m.title), "position" := Num(m.position), "sort" := Num(m.sort),
                    "pageTitle" := Str(m.pageTitle), "permalink" := Str(m.permalink)];
    OptionalField(OptionalField(OptionalField(base, "parentId", m.parentId), "parentTitle", m.parentTitle), "pageId", m.pageId)
  }

  /** The page the editor validates and saves: its id is the route id or `''`. */
  function PageDocument(routeId: Option<string>, form: PageForm): (r: Record)
    ensures Get(r, "id") == Str(OrElse(routeId, ""))
    ensures Get(r, "title") == Str(form.title) && Get(r, "permalink") == Str(form.permalink)
    ensures Get(r, "menuDetails") == Obj(MenuItemRecord(MenuDetails(form)))
  {
    map["id" := Str(OrElse(routeId, "")), "title" := Str(form.title), "permalink" := Str(form.permalink),
        "coverImage" := Str(form.cover), "content" := Str(form.content),
        "menuDetails" := Obj(MenuItemRecord(MenuDetails(form)))]
  }

  /** The form can be saved exactly when the title, permalink and menu title are filled and a display option other than 0 is chosen. */
  lemma PageFormValidIff(routeId: Option<string>, form: PageForm)
    ensures ValidateSpec(PageDocument(routeId, form), PageSchema).isValid <==>
      form.title != "" && form.permalink != "" && form.menuTitle != ""
      && form.menuDisplay.Some? && form.menuDisplay.value != 0
  {
    var page := PageDocument(routeId, form);
    var md := MenuItemRecord(MenuDetails(form));
    assert Get(page, "menuDetails").fields == md;
    assert Filled(Get(page, "title")) <==> form.title != "";
    assert Filled(Get(page, "permalink")) <==> form.permalink != "";
    assert Filled(Get(md, "title")) <==> form.menuTitle != "";
    assert Filled(Get(md, "position")) <==> form.menuDisplay.Some? && form.menuDisplay.value != 0;
    PageValidIff(page);
  }

  /** Without a display option the page is reported under `menuDetails.position`. */
  lemma NoDisplayIsInvalid(routeId: Option<string>, form: PageForm)
    requires form.menuDisplay.None?
    ensures "menuDetails.position" in ValidateSpec(PageDocument(routeId, form), PageSchema).invalidFields
  {
    UnpositionedPageInvalid(PageDocument(routeId, form));
  }

  // ---- parent options ----

  function NotThisPage(routeId: Option<string>): MenuItem -> bool {
    (m: MenuItem) => m.pageId != routeId
  }

  function AsParentOption(m: MenuItem): ParentOption {
    ParentOption(OrElse(m.pageId, ""), m.title)
  }

  /** "No parent", then every menu item except the page being edited, in menu order. */
  function ParentOptions(items: seq<MenuItem>, routeId: Option<string>): (r: seq<ParentOption>)
    ensures |r| >= 1 && r[0] == ParentOption("", "No parent")
    ensures r[1..] == Map(Filter(items, NotThisPage(routeId)), AsParentOption)
  {
    [ParentOption("", "No parent")] + Map(Filter(items, NotThisPage(routeId)), AsParentOption)
  }

  /** A page being edited is never offered as its own parent, and every other menu item is offered. */
  lemma ParentOptionsExcludeSelf(items: seq<MenuItem>, id: string)
    requires id != ""
    ensures forall i :: 1 <= i < |ParentOptions(items, Some(id))| ==> ParentOptions(items, Some(id))[i].value != id
    ensures forall m :: m in items && m.pageId != Some(id) ==> AsParentOption(m) in ParentOptions(items, Some(id))[1..]
  {
    var r := ParentOptions(items, Some(id));
    var kept := Filter(items, NotThisPage(Some(id)));
    forall i | 1 <= i < |r|
      ensures r[i].value != id
    {
      assert r[i] == AsParentOption(kept[i - 1]);
      assert kept[i - 1] in kept;
    }
    forall m | m in items && m.pageId != Some(id)
      ensures AsParentOption(m) in r[1..]
    {
      assert m in kept;
      var j :| 0 <= j < |kept| && kept[j] == m;
      assert r[1..][j] == AsParentOption(m);
    }
  }

  // ---- submit ----

  /** The menu after saving: the items of other pages, then the page's own menu details. */
  function ReplaceMenuItem(items: seq<MenuItem>, pageFilter: string, details: MenuItem): (r: seq<MenuItem>)
    ensures |r| >= 1 && r[|r| - 1] == details
    ensures forall m :: m in r[..|r| - 1] <==> m in items && m.pageId != Some(pageFilter)
  {
    Filter(items, NotThisPage(Some(pageFilter))) + [details]
  }

  /**
   * `submit`: saves the page with `Upsert`, sets the menu details' `pageId` to
   * the key `Upsert` returned or else the route id, and puts them last in the menu.
   */
  method Submit(cms: Cms, pages: Collection, routeId: Option<string>, form: PageForm, newId: string)
    requires pages.Valid()
    requires !Given(routeId) ==> newId != "" && newId !in pages.docs
    modifies cms, pages
    ensures pages.Valid()
    ensures var page := PageDocument(routeId, form);
      if Given(routeId) then pages.docs == SetMerged(old(pages.docs), routeId.value, page)
      else pages.docs == old(pages.docs)[newId := page]
    ensures var pageId := if Given(routeId) then routeId.value else newId;
      cms.menuItems == ReplaceMenuItem(old(cms.menuItems), OrElse(routeId, ""), MenuDetails(form).(pageId := Some(pageId)))
    ensures cms.files == old(cms.files) && cms.podcasts == old(cms.podcasts)
    ensures cms.pictures == old(cms.pictures) && cms.events == old(cms.events)
  {
    var page := PageDocument(routeId, form);
    assert Get(page, "id") == Str(OrElse(routeId, ""));
    assert Truthy(Get(page, "id")) <==> Given(routeId);
    var created := pages.Upsert(page, newId);
    var pageId := if created.Some? then created.value else OrElse(routeId, "");
    cms.menuItems := ReplaceMenuItem(cms.menuItems, OrElse(routeId, ""), MenuDetails(form).(pageId := Some(pageId)));
  }
}
