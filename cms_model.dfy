/**
 * The site-wide CMS document: menu positions, the typed lists the admin pages
 * edit, and loading the document with its defaults.
 */
module CmsModel {
  import opened Wrappers
  import opened Js
  import opened Repository

  /** `MenuPosition`: Top = 1, Bottom = 2, Both = 3, None = 4. */
  const PositionTop := 1
  const PositionBottom := 2
  const PositionBoth := 3
  const PositionNone := 4

  /** `getMenuPositionLabel`. */
  function MenuPositionLabel(position: int): (r: string)
    ensures r != "" <==> PositionTop <= position <= PositionNone
  {
    if position == PositionTop then "On the top menu"
    else if position == PositionBottom then "On the footer menu"
    else if position == PositionBoth then "On both menus"
    else if position == PositionNone then "Hide page"
    else ""
  }

  /** The four positions have four different, non-empty labels; any other number has the empty label. */
  lemma MenuPositionLabels(p: int, q: int)
    ensures MenuPositionLabel(p) != "" <==> 1 <= p <= 4
    ensures 1 <= p <= 4 && 1 <= q <= 4 && p != q ==> MenuPositionLabel(p) != MenuPositionLabel(q)
  {
  }

  /** One entry of the navigation menu; the optional fields may be absent. */
  datatype MenuItem = MenuItem(
    title: string, position: int, sort: int,
    parentId: Option<string>, parentTitle: Option<string>, pageId: Option<string>,
    pageTitle: string, permalink: string)

  datatype FileRef = FileRef(name: string, extension: string, path: string, downloadUrl: string)

  datatype PodcastRef = PodcastRef(id: string, title: string, embed: string, publishedAt: int)

  function PodcastId(p: PodcastRef): string {
    p.id
  }

  function PublishedAt(p: PodcastRef): int {
    p.publishedAt
  }

  datatype Picture = Picture(id: string, title: string, path: string, downloadUrl: string)

  datatype Event = Event(id: string, date: int, title: string, description: string, path: string, downloadUrl: string)

  function EventId(e: Event): string {
    e.id
  }

  /**
   * A call the admin pages make to the backend or to file storage, kept in the
   * order the page makes them: deleting a document, merging a patch into one,
   * or deleting a stored file.
   */
  datatype Effect = DeleteDocument(id: string) | PatchDocument(patch: Record) | DeleteFile(path: string)

  /** The `deleteFile` call for a file to delete, or none. */
  function FileDeletion(path: Option<string>): (r: seq<Effect>)
    ensures path.Some? ==> r == [DeleteFile(path.value)]
    ensures path.None? <==> r == []
  {
    if path.Some? then [DeleteFile(path.value)] else []
  }

  /** The in-memory CMS object the admin pages change in place. */
  class Cms {
    var menuItems: seq<MenuItem>
    var files: seq<FileRef>
    var podcasts: seq<PodcastRef>
    var pictures: seq<Picture>
    var events: seq<Event>

    constructor (menuItems: seq<MenuItem>, files: seq<FileRef>, podcasts: seq<PodcastRef>, pictures: seq<Picture>, events: seq<Event>)
      ensures this.menuItems == menuItems && this.files == files && this.podcasts == podcasts
      ensures this.pictures == pictures && this.events == events
    {
      this.menuItems := menuItems;
      this.files := files;
      this.podcasts := podcasts;
      this.pictures := pictures;
      this.events := events;
    }
  }

  /** `CMSRepo.Default`: zero statistics and five empty lists. */
  const Default: Record := map[
    "stats" := Obj(map["totalUsers" := Num(0), "totalPages" := Num(0), "totalUsersPendingApproval" := Num(0)]),
    "menuItems" := Arr([]),
    "files" := Arr([]),
    "podcasts" := Arr([]),
    "pictures" := Arr([]),
    "events" := Arr([])
  ]

  /** `base` overridden field by field by `data`, with `id` set to `key`. */
  function Overlay(base: Record, data: Record, key: string): (r: Record)
    ensures r.Keys == base.Keys + data.Keys + {"id"}
    ensures r["id"] == Str(key)
    ensures forall f :: f in data && f != "id" ==> r[f] == data[f]
    ensures forall f :: f in base && f !in data && f != "id" ==> r[f] == base[f]
  {
    (base + data)["id" := Str(key)]
  }

  /**
   * `Load`: `Default` for an empty collection; otherwise `Default` overridden
   * field by field by the first document, with `id` set to that document's key.
   */
  function Load(cms: Collection): (r: Record)
    reads cms
    requires cms.Valid()
    ensures cms.docs == map[] ==> r == Default
    ensures cms.docs != map[] ==> cms.order[0] in cms.docs && r == Overlay(Default, cms.docs[cms.order[0]], cms.order[0])
  {
    if |cms.order| == 0 then
      assert forall k :: k !in cms.docs;
      Default
    else
      assert cms.order[0] in cms.docs;
      Overlay(Default, cms.docs[cms.order[0]], cms.order[0])
  }

  /** A stored list or `stats` replaces the default one as a whole, even when it is shorter. */
  lemma StoredFieldReplacesDefault(cms: Collection, f: string)
    requires cms.Valid() && |cms.order| > 0 && f != "id"
    requires f in cms.docs[cms.order[0]]
    ensures Load(cms)[f] == cms.docs[cms.order[0]][f]
  {
  }
}
