/**
 * The gallery picture editor: the picture record it validates, loading a
 * picture for editing, replacing an uploaded file, and the submit that puts
 * the picture first in the CMS list and deletes a replaced file.
 */
module PictureEditor {
  import opened Wrappers
  import opened Js
  import opened Lists
  import opened Validation
  import opened CmsModel

  const PictureFields: seq<string> := ["title", "downloadUrl"]

  /** `title` and `downloadUrl`, each Required, without hints. */
  const PictureSchema: seq<FieldSchema> := RequiredSchema(PictureFields)

  /** A picture as the plain object `validate` reads. */
  function PictureRecord(p: Picture): (r: Record)
    ensures Get(r, "title") == Str(p.title) && Get(r, "downloadUrl") == Str(p.downloadUrl)
  {
    map["id" := Str(p.id), "title" := Str(p.title), "path" := Str(p.path), "downloadUrl" := Str(p.downloadUrl)]
  }

  /** A picture validates exactly when it has a title and an uploaded file's URL. */
  lemma PictureValidIff(p: Picture)
    ensures ValidateSpec(PictureRecord(p), PictureSchema).isValid <==> p.title != "" && p.downloadUrl != ""
  {
    PictureFieldsPlain();
    AllRequiredValidIff(PictureRecord(p), PictureFields);
    PictureFieldsFilled(p);
  }

  lemma PictureFieldsPlain()
    ensures forall i :: 0 <= i < |PictureFields| ==> '.' !in PictureFields[i]
  {
    assert PictureFields[0] == "title" && PictureFields[1] == "downloadUrl";
  }

  lemma PictureFieldsFilled(p: Picture)
    ensures (forall i :: 0 <= i < |PictureFields| ==> Filled(Get(PictureRecord(p), PictureFields[i]))) <==>
      p.title != "" && p.downloadUrl != ""
  {
    var r := PictureRecord(p);
    assert PictureFields[0] == "title" && PictureFields[1] == "downloadUrl";
    assert Filled(Get(r, "title")) <==> p.title != "";
    assert Filled(Get(r, "downloadUrl")) <==> p.downloadUrl != "";
    if p.title != "" && p.downloadUrl != "" {
      assert forall i :: 0 <= i < |PictureFields| ==> Filled(Get(r, PictureFields[i]));
    }
  }

  function PictureId(p: Picture): string {
    p.id
  }

  function HasId(id: string): (f: Picture -> bool)
    ensures forall p :: f(p) <==> p.id == id
  {
    (p: Picture) => p.id == id
  }

  /**
   * The file a submit deletes: the path of the first listed picture with the
   * submitted id, whenever it differs from the submitted path, even when empty.
   */
  function ReplacedFile(pictures: seq<Picture>, picture: Picture): (r: Option<string>)
    ensures r.Some? ==> r.value != picture.path
    ensures r.Some? ==> exists p :: p in pictures && p.id == picture.id && p.path == r.value
    ensures (forall p :: p in pictures ==> p.id != picture.id) ==> r.None?
  {
    var prior := Find(pictures, HasId(picture.id));
    if prior.Some? && prior.value.path != picture.path then Some(prior.value.path) else None
  }

  /** With one picture per id, the deleted file is the file of the picture being replaced, empty or not. */
  lemma ReplacedFileOfUniqueId(pictures: seq<Picture>, k: int, picture: Picture)
    requires UniqueKeys(pictures, PictureId)
    requires 0 <= k < |pictures| && pictures[k].id == picture.id
    ensures ReplacedFile(pictures, picture) == if pictures[k].path != picture.path then Some(pictures[k].path) else None
  {
    assert HasId(picture.id)(pictures[k]);
    var found := Find(pictures, HasId(picture.id));
    assert found.Some?;
    var i :| 0 <= i < |pictures| && pictures[i] == found.value && HasId(picture.id)(pictures[i])
      && forall j :: 0 <= j < i ==> !HasId(picture.id)(pictures[j]);
    assert pictures[i].id == picture.id;
    assert PictureId(pictures[i]) == PictureId(pictures[k]);
    assert i == k;
  }

  /** What the editor's inputs hold. */
  class PictureEditorView {
    /** The id the editor was last synchronised with; `None` stands for `undefined`. */
    var loadedId: Option<string>
    var title: string
    var path: string
    var downloadUrl: Option<string>
    var effects: seq<Effect>

    constructor ()
      ensures loadedId == Some("") && title == "" && path == "" && downloadUrl == Some("") && effects == []
    {
      loadedId := Some("");
      title := "";
      path := "";
      downloadUrl := Some("");
      effects := [];
    }

    /** The picture the inputs describe: the route id or a fresh id, and `''` for a missing download URL. */
    function Current(routeId: Option<string>, freshId: string): (p: Picture)
      reads this
      ensures p.id == OrElse(routeId, freshId) && p.title == title && p.path == path
      ensures p.downloadUrl == OrElse(downloadUrl, "")
    {
      Picture(OrElse(routeId, freshId), title, path, OrElse(downloadUrl, ""))
    }

    /** The save button is enabled exactly when the title is filled and a file was uploaded. */
    lemma FormValidIff(routeId: Option<string>, freshId: string)
      ensures ValidateSpec(PictureRecord(Current(routeId, freshId)), PictureSchema).isValid <==>
        title != "" && Given(downloadUrl)
    {
      PictureValidIff(Current(routeId, freshId));
    }

    /**
     * The cleanup registered for the current path, run when the path changes:
     * it deletes that file when the listed picture being edited stores another
     * path, so an upload that is replaced before saving does not stay in storage.
     */
    function StaleUpload(pictures: seq<Picture>): (r: Option<string>)
      reads this
      ensures r.Some? ==> r.value == path && loadedId.Some?
      ensures r.Some? ==> exists p :: p in pictures && p.id == loadedId.value && p.path != path
    {
      if loadedId.Some? then
        var editing := Find(pictures, HasId(loadedId.value));
        if editing.Some? && editing.value.path != path then Some(path) else None
      else None
    }

    /** `setPath`: a changed path first runs the previous path's cleanup. */
    method SetPath(cms: Cms, newPath: string)
      modifies this
      ensures path == newPath
      ensures loadedId == old(loadedId) && title == old(title) && downloadUrl == old(downloadUrl)
      ensures effects == old(effects) + if newPath != old(path) then FileDeletion(old(StaleUpload(cms.pictures))) else []
    {
      if newPath != path {
        effects := effects + FileDeletion(StaleUpload(cms.pictures));
      }
      path := newPath;
    }

    /**
     * The render-time synchronisation with the route: a new route id loads the
     * listed picture with that id, when there is one; leaving edit mode clears the inputs.
     */
    method Sync(cms: Cms, routeId: Option<string>)
      modifies this
      ensures effects == old(effects) + if path != old(path) then FileDeletion(old(StaleUpload(cms.pictures))) else []
      ensures Given(routeId) && old(loadedId) != routeId ==>
        loadedId == routeId &&
        match Find(cms.pictures, HasId(routeId.value))
        case Some(p) => title == p.title && path == p.path && downloadUrl == Some(p.downloadUrl)
        case None => title == old(title) && path == old(path) && downloadUrl == old(downloadUrl)
      ensures !Given(routeId) && old(loadedId) != routeId ==>
        loadedId.None? && title == "" && path == "" && downloadUrl.None?
      ensures old(loadedId) == routeId ==>
        loadedId == old(loadedId) && title == old(title) && path == old(path) && downloadUrl == old(downloadUrl)
    {
      if Given(routeId) && loadedId != routeId {
        var selected := Find(cms.pictures, HasId(routeId.value));
        if selected.Some? {
          SetPath(cms, selected.value.path);
          title := selected.value.title;
          downloadUrl := Some(selected.value.downloadUrl);
        }
        loadedId := routeId;
      } else if !Given(routeId) && loadedId != routeId {
        SetPath(cms, "");
        loadedId := None;
        title := "";
        downloadUrl := None;
      }
    }

    /** An upload completes: the new path, through `setPath`, and the new URL are kept. */
    method Uploaded(cms: Cms, newPath: string, newUrl: string)
      modifies this
      ensures path == newPath && downloadUrl == Some(newUrl)
      ensures loadedId == old(loadedId) && title == old(title)
      ensures effects == old(effects) + if newPath != old(path) then FileDeletion(old(StaleUpload(cms.pictures))) else []
    {
      SetPath(cms, newPath);
      downloadUrl := Some(newUrl);
    }

    /**
     * `submit`: deletes the replaced file of a picture with the same id, then puts
     * the picture first and drops every other picture with its id, the rest in order.
     */
    method Submit(cms: Cms, routeId: Option<string>, freshId: string) returns (picture: Picture)
      modifies this, cms
      ensures picture == old(Current(routeId, freshId))
      ensures cms.pictures == PutFirst(picture, old(cms.pictures), PictureId)
      ensures effects == old(effects) + FileDeletion(ReplacedFile(old(cms.pictures), picture))
      ensures cms.menuItems == old(cms.menuItems) && cms.files == old(cms.files) && cms.podcasts == old(cms.podcasts)
      ensures cms.events == old(cms.events)
      ensures loadedId == old(loadedId) && title == old(title) && path == old(path) && downloadUrl == old(downloadUrl)
    {
      picture := Current(routeId, freshId);
      var replaced := ReplacedFile(cms.pictures, picture);
      if replaced.Some? {
        effects := effects + [DeleteFile(replaced.value)];
      }
      cms.pictures := PutFirst(picture, cms.pictures, PictureId);
    }
  }

  /** After a submit the gallery keeps one picture per id, the submitted one first, when it had one per id before. */
  lemma SubmitKeepsIdsUnique(pictures: seq<Picture>, picture: Picture)
    requires UniqueKeys(pictures, PictureId)
    ensures UniqueKeys(PutFirst(picture, pictures, PictureId), PictureId)
    ensures PutFirst(picture, pictures, PictureId)[0] == picture
  {
    PutFirstKeepsKeysUnique(picture, pictures, PictureId);
  }
}
