/** Podcasts: their validation schema and the `Save` that stamps the creation time. */
module PodcastModel {
  import opened Wrappers
  import opened Js
  import opened Validation
  import opened Repository

  /** `title` [Required] and `embed` [Required]. */
  const PodcastSchema: seq<FieldSchema> := [
    FieldSchema("title", Some([Rule(Required, "")])),
    FieldSchema("embed", Some([Rule(Required, "")]))
  ]

  /** A podcast is valid exactly when neither its title nor its embed is `0` or `''`. */
  lemma PodcastValidIff(podcast: Record)
    ensures ValidateSpec(podcast, PodcastSchema).isValid <==> Filled(Get(podcast, "title")) && Filled(Get(podcast, "embed"))
  {
    ValidIffNoFailure(podcast, PodcastSchema);
    RequiredEntry(podcast, "title", Get(podcast, "title"), "");
    RequiredEntry(podcast, "embed", Get(podcast, "embed"), "");
    assert EntryOutcome(PodcastSchema[0], podcast) == FieldOutcome([Rule(Required, "")], "title", podcast);
    assert EntryOutcome(PodcastSchema[1], podcast) == FieldOutcome([Rule(Required, "")], "embed", podcast);
  }

  /** `Math.round(ms / 1000)`: the nearest whole second, halves rounded up. */
  function RoundToSeconds(ms: int): (s: int)
    ensures s * 1000 - 500 <= ms < s * 1000 + 500
  {
    (ms + 500) / 1000
  }

  /** The model with `createdAt` overwritten by the current time in seconds. */
  function Stamped(model: Record, nowMs: int): (r: Record)
    ensures "createdAt" in r && r["createdAt"] == Num(RoundToSeconds(nowMs))
    ensures r.Keys == model.Keys + {"createdAt"}
    ensures forall f :: f in model && f != "createdAt" ==> r[f] == model[f]
  {
    model["createdAt" := Num(RoundToSeconds(nowMs))]
  }

  /**
   * The overriding `Save`: stamps `createdAt` on the caller's model, then stores it
   * through the base `Save`; returns the key and the stamped model.
   */
  method Save(podcasts: Collection, model: Record, nowMs: int, newId: string) returns (key: string, stamped: Record)
    requires podcasts.Valid() && newId != "" && newId !in podcasts.docs
    modifies podcasts
    ensures podcasts.Valid() && key == newId
    ensures stamped == Stamped(model, nowMs)
    ensures podcasts.docs == old(podcasts.docs)[newId := stamped]
  {
    stamped := model["createdAt" := Num(RoundToSeconds(nowMs))];
    key := podcasts.Save(stamped, newId);
  }

  /** `Upsert` on the podcast repository: a podcast without an id reaches the stamping `Save`. */
  method Upsert(podcasts: Collection, model: Record, nowMs: int, newId: string) returns (created: Option<string>)
    requires podcasts.Valid()
    requires Truthy(Get(model, "id")) ==> Get(model, "id").Str?
    requires !Truthy(Get(model, "id")) ==> newId != "" && newId !in podcasts.docs
    modifies podcasts
    ensures podcasts.Valid()
    ensures !Truthy(Get(model, "id")) ==> created == Some(newId) && podcasts.docs == old(podcasts.docs)[newId := Stamped(model, nowMs)]
    ensures Truthy(Get(model, "id")) ==> created.None? && podcasts.docs == SetMerged(old(podcasts.docs), model["id"].s, model)
  {
    if !Truthy(Get(model, "id")) {
      var key, _ := Save(podcasts, model, nowMs, newId);
      return Some(key);
    }
    podcasts.Update(model);
    return None;
  }
}
