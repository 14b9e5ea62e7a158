/**
 * The admin gallery: deleting a picture, which is flagged by its file path,
 * and the four- and two-column layouts.
 */
module PicturesList {
  import opened Wrappers
  import opened Js
  import opened Lists
  import opened Utils
  import opened CmsModel

  function NotAt(path: string): (f: Picture -> bool)
    ensures forall p :: f(p) <==> p.path != path
  {
    (p: Picture) => p.path != path
  }

  /** The gallery after deleting: every picture stored at `path` removed, the others in order. */
  function WithoutPath(pictures: seq<Picture>, path: string): (r: seq<Picture>)
    ensures |r| <= |pictures|
    ensures forall p :: p in r <==> p in pictures && p.path != path
  {
    Filter(pictures, NotAt(path))
  }

  /** The wide layout's columns. */
  const WideColumns := 4
  /** The medium layout's columns. */
  const MediumColumns := 2

  /** The admin gallery. */
  class PictureListView {
    var pictures: seq<Picture>
    /** The path of the picture to delete, if one is flagged. */
    var flaggedToDelete: Option<string>
    var effects: seq<Effect>

    constructor (cms: Cms)
      ensures pictures == cms.pictures && flaggedToDelete.None? && effects == []
    {
      pictures := cms.pictures;
      flaggedToDelete := None;
      effects := [];
    }

    /** `remove`: flags the picture by its path, not by its id. */
    method Remove(pic: Picture)
      modifies this
      ensures flaggedToDelete == Some(pic.path) && pictures == old(pictures) && effects == old(effects)
    {
      flaggedToDelete := Some(pic.path);
    }

    method CancelDelete()
      modifies this
      ensures flaggedToDelete.None? && pictures == old(pictures) && effects == old(effects)
    {
      flaggedToDelete := None;
    }

    /** `filter`: shows the whole gallery again. */
    method ApplyFilter(cms: Cms)
      modifies this
      ensures pictures == cms.pictures
      ensures flaggedToDelete == old(flaggedToDelete) && effects == old(effects)
    {
      pictures := cms.pictures;
    }

    /**
     * `confirmDelete`: with a path flagged, deletes that file, removes every picture
     * stored at it and shows the whole gallery; the flag is cleared either way.
     */
    method ConfirmDelete(cms: Cms)
      modifies this, cms
      ensures flaggedToDelete.None?
      ensures Given(old(flaggedToDelete)) ==> var path := old(flaggedToDelete).value;
        && effects == old(effects) + [DeleteFile(path)]
        && cms.pictures == WithoutPath(old(cms.pictures), path)
        && pictures == cms.pictures
      ensures !Given(old(flaggedToDelete)) ==>
        effects == old(effects) && cms.pictures == old(cms.pictures) && pictures == old(pictures)
      ensures cms.menuItems == old(cms.menuItems) && cms.files == old(cms.files)
      ensures cms.podcasts == old(cms.podcasts) && cms.events == old(cms.events)
    {
      if Given(flaggedToDelete) {
        var path := flaggedToDelete.value;
        effects := effects + [DeleteFile(path)];
        cms.pictures := WithoutPath(cms.pictures, path);
        ApplyFilter(cms);
      }
      flaggedToDelete := None;
    }

    /**
     * The layouts: `chunk(pictures, 4)` and `chunk(pictures, 2)`, exactly four and
     * two columns, each holding every picture once, in balanced columns.
     */
    method Layout() returns (wide: seq<seq<Picture>>, medium: seq<seq<Picture>>)
      ensures wide == Columns(pictures, WideColumns) && medium == Columns(pictures, MediumColumns)
      ensures |wide| == 4 && |medium| == 2
      ensures TotalLength(wide) == |pictures| && TotalLength(medium) == |pictures|
      ensures forall b1, b2 :: 0 <= b1 <= b2 < 4 ==> |wide[b2]| <= |wide[b1]| <= |wide[b2]| + 1
      ensures |medium[1]| <= |medium[0]| <= |medium[1]| + 1
    {
      wide := Chunk(pictures, WideColumns);
      medium := Chunk(pictures, MediumColumns);
      ColumnsBalanced(pictures, WideColumns);
      ColumnsBalanced(pictures, MediumColumns);
    }
  }
}
