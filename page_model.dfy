/** Pages: their validation schema and the lookup by permalink. */
module PageModel {
  import opened Wrappers
  import opened Js
  import opened Validation
  import opened Repository

  const PageFields: seq<string> := ["title", "permalink", "menuDetails.title", "menuDetails.position"]

  /** `title`, `permalink`, `menuDetails.title` and `menuDetails.position`, each Required, without hints. */
  const PageSchema: seq<FieldSchema> := RequiredSchema(PageFields)

  lemma PageFieldNames()
    ensures PageFields[2] == "menuDetails" + "." + "title"
    ensures PageFields[3] == "menuDetails" + "." + "position"
    ensures '.' !in PageFields[0] && '.' !in PageFields[1]
  {
  }

  lemma MenuDetailsEntry(page: Record, name: string, inner: string)
    requires Get(page, "menuDetails").Obj? && '.' !in inner && name == "menuDetails" + "." + inner
    ensures FieldOutcome([Rule(Required, "")], name, page) == Valid <==> Filled(Get(Get(page, "menuDetails").fields, inner))
  {
    DottedPath(page, "menuDetails", inner);
    RequiredEntry(page, name, Get(Get(page, "menuDetails").fields, inner), "");
  }

  /** The two plain fields and the two fields read through `menuDetails`. */
  lemma PageFieldsFilled(page: Record)
    requires Get(page, "menuDetails").Obj?
    ensures var md := Get(page, "menuDetails").fields;
      && (FieldOutcome([Rule(Required, "")], PageFields[0], page) == Valid <==> Filled(Get(page, "title")))
      && (FieldOutcome([Rule(Required, "")], PageFields[1], page) == Valid <==> Filled(Get(page, "permalink")))
      && (FieldOutcome([Rule(Required, "")], PageFields[2], page) == Valid <==> Filled(Get(md, "title")))
      && (FieldOutcome([Rule(Required, "")], PageFields[3], page) == Valid <==> Filled(Get(md, "position")))
  {
    PageFieldNames();
    RequiredEntry(page, PageFields[0], Get(page, "title"), "");
    RequiredEntry(page, PageFields[1], Get(page, "permalink"), "");
    MenuDetailsEntry(page, PageFields[2], "title");
    MenuDetailsEntry(page, PageFields[3], "position");
  }

  /**
   * A page whose menu details are an object is valid exactly when none of the
   * four fields is `0` or `''`.
   */
  lemma PageValidIff(page: Record)
    requires Get(page, "menuDetails").Obj?
    ensures var md := Get(page, "menuDetails").fields;
      ValidateSpec(page, PageSchema).isValid <==>
        Filled(Get(page, "title")) && Filled(Get(page, "permalink"))
        && Filled(Get(md, "title")) && Filled(Get(md, "position"))
  {
    RequiredSchemaValidIff(page, PageFields);
    PageFieldsFilled(page);
    var md := Get(page, "menuDetails").fields;
    if Filled(Get(page, "title")) && Filled(Get(page, "permalink")) && Filled(Get(md, "title")) && Filled(Get(md, "position")) {
      forall i | 0 <= i < |PageFields|
        ensures FieldOutcome([Rule(Required, "")], PageFields[i], page) == Valid
      {
        if i == 0 {
        } else if i == 1 {
        } else if i == 2 {
        } else {
          assert i == 3;
        }
      }
    }
  }

  /** A page with menu position 0 is reported under `menuDetails.position`. */
  lemma UnpositionedPageInvalid(page: Record)
    requires Get(page, "menuDetails").Obj? && Get(Get(page, "menuDetails").fields, "position") == Num(0)
    ensures !ValidateSpec(page, PageSchema).isValid
    ensures "menuDetails.position" in ValidateSpec(page, PageSchema).invalidFields
  {
    PageValidIff(page);
    InvalidFieldsSummary(page, PageSchema);
    PageFieldsFilled(page);
    assert PageSchema[3] == FieldSchema(PageFields[3], Some([Rule(Required, "")]));
    assert EntryOutcome(PageSchema[3], page).Invalid?;
  }

  /**
   * `FindByPermalink`: nothing for an empty permalink; otherwise the data of the
   * first page, in key order, whose `permalink` is that string, without an id overlay.
   */
  function FindByPermalink(pages: Collection, permalink: string): (r: Option<Record>)
    reads pages
    requires pages.Valid()
    ensures permalink == "" ==> r.None?
    ensures r.Some? ==> Get(r.value, "permalink") == Str(permalink) && r.value in pages.docs.Values
    ensures permalink != "" && r.None? ==> forall k :: k in pages.docs ==> Get(pages.docs[k], "permalink") != Str(permalink)
    ensures r.Some? ==> exists i :: (0 <= i < |pages.order| && pages.order[i] in pages.docs && pages.docs[pages.order[i]] == r.value
              && forall j :: 0 <= j < i ==> pages.order[j] in pages.docs && Get(pages.docs[pages.order[j]], "permalink") != Str(permalink))
  {
    if permalink == "" then None
    else pages.FirstWhere("permalink", permalink)
  }
}
