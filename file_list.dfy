/**
 * The admin file list: the name and extension filter, deleting a file by its
 * path, and adding an uploaded file to the front of the list.
 */
module FileList {
  import opened Wrappers
  import opened Js
  import opened Lists
  import opened Utils
  import opened CmsModel

  /** `filter(name, ext)`'s test: the name contains `name`, ignoring case, and the extension is exactly `ext`; empty queries match everything. */
  predicate FileMatches(f: FileRef, name: string, ext: string) {
    MatchesQuery(f.name, name) && (ext == "" || f.extension == ext)
  }

  function Matching(name: string, ext: string): (m: FileRef -> bool)
    ensures forall f :: m(f) <==> FileMatches(f, name, ext)
  {
    (f: FileRef) => FileMatches(f, name, ext)
  }

  /** `filter`: the matching files, in list order. */
  function FilterFiles(files: seq<FileRef>, name: string, ext: string): (r: seq<FileRef>)
    ensures |r| <= |files|
    ensures forall f :: f in r <==> f in files && MatchesQuery(f.name, name) && (ext == "" || f.extension == ext)
  {
    Filter(files, Matching(name, ext))
  }

  /** `filter('', '')` shows every file. */
  lemma ResetShowsAll(files: seq<FileRef>)
    ensures FilterFiles(files, "", "") == files
  {
    assert forall i :: 0 <= i < |files| ==> Matching("", "")(files[i]);
  }

  function NotAt(path: string): (m: FileRef -> bool)
    ensures forall f :: m(f) <==> f.path != path
  {
    (f: FileRef) => f.path != path
  }

  /** The list after deleting: every file stored at `path` removed, the others in order. */
  function WithoutPath(files: seq<FileRef>, path: string): (r: seq<FileRef>)
    ensures |r| <= |files|
    ensures forall f :: f in r <==> f in files && f.path != path
  {
    Filter(files, NotAt(path))
  }

  /** The folder uploads go to. */
  const UploadFolder := "/files/"

  /** The entry for an uploaded file: its extension as `getExtension` reads it, its storage path, and its URL or `''`. */
  function UploadedFile(name: string, downloadUrl: Option<string>): (f: FileRef)
    ensures f.name == name && f.extension == GetExtension(name)
    ensures f.path == UploadFolder + name && f.downloadUrl == OrElse(downloadUrl, "")
  {
    FileRef(name, GetExtension(name), UploadFolder + name, OrElse(downloadUrl, ""))
  }

  /** Uploading the same name twice lists two entries with the same path: nothing is de-duplicated. */
  lemma UploadTwiceKeepsBoth(files: seq<FileRef>, name: string, url1: Option<string>, url2: Option<string>)
    ensures var once := [UploadedFile(name, url1)] + files;
      var twice := [UploadedFile(name, url2)] + once;
      |twice| == |files| + 2 && twice[0].path == twice[1].path == UploadFolder + name
  {
  }

  /** The admin file list. */
  class FileListView {
    var files: seq<FileRef>
    /** The path of the file to delete, if one is flagged. */
    var flaggedToDelete: Option<string>
    var uploading: bool
    var effects: seq<Effect>

    constructor (cms: Cms)
      ensures files == cms.files && flaggedToDelete.None? && !uploading && effects == []
    {
      files := cms.files;
      flaggedToDelete := None;
      uploading := false;
      effects := [];
    }

    method FlagToDelete(path: Option<string>)
      modifies this
      ensures flaggedToDelete == path && files == old(files) && uploading == old(uploading) && effects == old(effects)
    {
      flaggedToDelete := path;
    }

    method CancelDelete()
      modifies this
      ensures flaggedToDelete.None? && files == old(files) && uploading == old(uploading) && effects == old(effects)
    {
      flaggedToDelete := None;
    }

    /** `filter`: shows the matching files. */
    method ApplyFilter(cms: Cms, name: string, ext: string)
      modifies this
      ensures files == FilterFiles(cms.files, name, ext)
      ensures flaggedToDelete == old(flaggedToDelete) && uploading == old(uploading) && effects == old(effects)
    {
      files := FilterFiles(cms.files, name, ext);
    }

    /**
     * `confirmDelete`: with a path flagged, deletes that file, removes every entry
     * stored at it and shows the whole list; the flag is cleared either way.
     */
    method ConfirmDelete(cms: Cms)
      modifies this, cms
      ensures flaggedToDelete.None? && uploading == old(uploading)
      ensures Given(old(flaggedToDelete)) ==> var path := old(flaggedToDelete).value;
        && effects == old(effects) + [DeleteFile(path)]
        && cms.files == WithoutPath(old(cms.files), path)
        && files == cms.files
      ensures !Given(old(flaggedToDelete)) ==>
        effects == old(effects) && cms.files == old(cms.files) && files == old(files)
      ensures cms.menuItems == old(cms.menuItems) && cms.podcasts == old(cms.podcasts)
      ensures cms.pictures == old(cms.pictures) && cms.events == old(cms.events)
    {
      if Given(flaggedToDelete) {
        var path := flaggedToDelete.value;
        effects := effects + [DeleteFile(path)];
        cms.files := WithoutPath(cms.files, path);
        ApplyFilter(cms, "", "");
        ResetShowsAll(cms.files);
      }
      flaggedToDelete := None;
    }

    /** A file was picked: the upload starts. */
    method StartUpload()
      modifies this
      ensures uploading && files == old(files) && flaggedToDelete == old(flaggedToDelete) && effects == old(effects)
    {
      uploading := true;
    }

    /**
     * The upload's progress callback: on completion the new entry goes to the
     * front of `cms.files` and the whole list is shown; other events change nothing.
     */
    method OnUploadEvent(cms: Cms, name: string, complete: bool, downloadUrl: Option<string>)
      modifies this, cms
      ensures complete ==>
        && !uploading
        && cms.files == [UploadedFile(name, downloadUrl)] + old(cms.files)
        && files == cms.files
      ensures !complete ==> uploading == old(uploading) && cms.files == old(cms.files) && files == old(files)
      ensures flaggedToDelete == old(flaggedToDelete) && effects == old(effects)
      ensures cms.menuItems == old(cms.menuItems) && cms.podcasts == old(cms.podcasts)
      ensures cms.pictures == old(cms.pictures) && cms.events == old(cms.events)
    {
      if complete {
        uploading := false;
        cms.files := [UploadedFile(name, downloadUrl)] + cms.files;
        ApplyFilter(cms, "", "");
        ResetShowsAll(cms.files);
      }
    }
  }
}
