/**
 * The base repository every model extends: one backend collection, modelled as
 * an in-memory table of documents keyed by id.
 */
module Repository {
  import opened Wrappers
  import opened Js
  import opened Lists

  /**
   * `set(patch, { merge: true })` as the backend defines it: fields of the patch
   * overwrite stored ones, a nested object merged into a stored nested object is
   * merged field by field, and fields the patch does not name are kept.
   */
  function Merge(stored: Record, patch: Record): (r: Record)
    ensures r.Keys == stored.Keys + patch.Keys
    ensures forall k :: k in stored && k !in patch ==> r[k] == stored[k]
    ensures forall k :: k in patch && !patch[k].Obj? ==> r[k] == patch[k]
    ensures forall k :: k in patch && patch[k].Obj? && !(k in stored && stored[k].Obj?) ==> r[k] == patch[k]
    ensures forall k :: k in patch && patch[k].Obj? && k in stored && stored[k].Obj? ==>
              r[k] == Obj(Merge(stored[k].fields, patch[k].fields))
    decreases Obj(patch)
  {
    map k | k in stored.Keys + patch.Keys ::
      if k in patch then
        if k in stored && stored[k].Obj? && patch[k].Obj? then
          assert patch[k] in patch.Values;
          Obj(Merge(stored[k].fields, patch[k].fields))
        else patch[k]
      else stored[k]
  }

  /** An empty patch changes nothing. */
  lemma MergeEmptyPatch(stored: Record)
    ensures Merge(stored, map[]) == stored
  {
  }

  /** Merging into a missing document stores the patch as it is. */
  lemma MergeIntoNothing(patch: Record)
    ensures Merge(map[], patch) == patch
  {
  }

  /** Merging a record into itself changes nothing. */
  lemma {:induction false} MergeSelf(r: Record)
    ensures Merge(r, r) == r
    decreases Obj(r)
  {
    forall k | k in r && r[k].Obj?
      ensures Merge(r[k].fields, r[k].fields) == r[k].fields
    {
      assert r[k] in r.Values;
      MergeSelf(r[k].fields);
    }
  }

  /** Sending the same patch twice has the effect of sending it once. */
  lemma {:induction false} MergeIdempotent(stored: Record, patch: Record)
    ensures Merge(Merge(stored, patch), patch) == Merge(stored, patch)
    decreases Obj(patch)
  {
    var once := Merge(stored, patch);
    forall k | k in patch && patch[k].Obj?
      ensures Merge(once, patch)[k] == once[k]
    {
      assert patch[k] in patch.Values;
      if k in stored && stored[k].Obj? {
        MergeIdempotent(stored[k].fields, patch[k].fields);
      } else {
        MergeSelf(patch[k].fields);
      }
    }
  }

  /** A patch of one plain field sets that field and keeps the rest of the document. */
  lemma MergeScalar(stored: Record, f: string, v: Value)
    requires !v.Obj?
    ensures Merge(stored, map[f := v]) == stored[f := v]
  {
    var r := Merge(stored, map[f := v]);
    assert r.Keys == stored[f := v].Keys;
    forall k | k in r
      ensures r[k] == stored[f := v][k]
    {
      if k == f {
        assert r[k] == v;
      }
    }
  }

  /** A nested field the patch does not name survives the merge. */
  lemma MergeKeepsNested(stored: Record, patch: Record, k: string, inner: string)
    requires k in stored && stored[k].Obj? && inner in stored[k].fields
    requires k in patch && patch[k].Obj? && inner !in patch[k].fields
    ensures Merge(stored, patch)[k].fields[inner] == stored[k].fields[inner]
  {
  }

  /** `{ id: key, ...data }`: the key as `id`, unless the data carries its own `id`. */
  function WithId(key: string, data: Record): (r: Record)
    ensures r.Keys == data.Keys + {"id"}
    ensures forall k :: k in data ==> r[k] == data[k]
    ensures "id" !in data ==> r["id"] == Str(key)
  {
    map["id" := Str(key)] + data
  }

  /** The table after `doc(id).set(patch, { merge: true })`. */
  function SetMerged(docs: map<string, Record>, id: string, patch: Record): (r: map<string, Record>)
    ensures r.Keys == docs.Keys + {id}
    ensures forall k :: k in docs && k != id ==> r[k] == docs[k]
    ensures id !in docs ==> r[id] == patch
  {
    MergeIntoNothing(patch);
    docs[id := Merge(if id in docs then docs[id] else map[], patch)]
  }

  /** The `id` the model carries, when it names a document. */
  predicate HasId(model: Record) {
    "id" in model && model["id"].Str? && model["id"].s != ""
  }

  /** Keys ordered strictly: every key once. */
  lemma SortedKeysDistinct(order: seq<string>, i: int, j: int)
    requires SortedBy(order, CodePointLess) && 0 <= i < j < |order|
    ensures order[i] != order[j]
  {
    CodePointLessIrreflexive(order[i]);
  }

  lemma SortedHeadBelow(k: string, s: seq<string>)
    requires SortedBy(s, CodePointLess) && |s| > 0 && CodePointLess(k, s[0])
    ensures forall j :: 0 <= j < |s| ==> CodePointLess(k, s[j])
  {
    forall j | 0 < j < |s|
      ensures CodePointLess(k, s[j])
    {
      CodePointLessTransitive(k, s[0], s[j]);
    }
  }

  /** Puts a new key at its place in the ascending key order. */
  function InsertKey(k: string, s: seq<string>): (r: seq<string>)
    requires SortedBy(s, CodePointLess) && k !in s
    ensures SortedBy(r, CodePointLess)
    ensures forall x :: x in r <==> x in s || x == k
  {
    if |s| == 0 then [k]
    else if CodePointLess(k, s[0]) then
      SortedHeadBelow(k, s);
      [k] + s
    else
      CodePointLessTotal(k, s[0]);
      var t := InsertKey(k, s[1..]);
      assert forall j :: 0 <= j < |t| ==> t[j] in s[1..] || t[j] == k;
      [s[0]] + t
  }

  /** The first key, in key order, whose document has `field` equal to the string `value`. */
  function FirstMatch(keys: seq<string>, docs: map<string, Record>, field: string, value: string): (r: Option<string>)
    requires forall k :: k in keys ==> k in docs
    ensures r.Some? ==> r.value in keys && Get(docs[r.value], field) == Str(value)
    ensures r.Some? ==> exists i :: (0 <= i < |keys| && keys[i] == r.value &&
              forall j :: 0 <= j < i ==> Get(docs[keys[j]], field) != Str(value))
    ensures r.None? <==> forall k :: k in keys ==> Get(docs[k], field) != Str(value)
  {
    if |keys| == 0 then None
    else if Get(docs[keys[0]], field) == Str(value) then Some(keys[0])
    else
      var r := FirstMatch(keys[1..], docs, field, value);
      assert forall k :: k in keys ==> k == keys[0] || k in keys[1..];
      if r.Some? then
        ghost var i :| 0 <= i < |keys[1..]| && keys[1..][i] == r.value &&
          forall j :: 0 <= j < i ==> Get(docs[keys[1..][j]], field) != Str(value);
        assert keys[i + 1] == r.value;
        r
      else r
  }

  /** One backend collection: its documents by key, and the keys in the order queries return them. */
  class Collection {
    var docs: map<string, Record>
    var order: seq<string>

    /** Queries return documents in ascending key order; keys are non-empty. */
    ghost predicate Valid()
      reads this
    {
      && SortedBy(order, CodePointLess)
      && (forall k :: k in order <==> k in docs)
      && "" !in docs
    }

    constructor ()
      ensures Valid() && docs == map[] && order == []
    {
      docs := map[];
      order := [];
    }

    /** `doc(id).set(patch, { merge: true })`. */
    method SetMerge(id: string, patch: Record)
      requires Valid() && id != ""
      modifies this
      ensures Valid() && docs == SetMerged(old(docs), id, patch)
    {
      if id !in docs {
        order := InsertKey(id, order);
      }
      docs := SetMerged(docs, id, patch);
    }

    /** `Save`: `add(model)` stores the model as it is under a fresh key and returns the key. */
    method Save(model: Record, newId: string) returns (key: string)
      requires Valid() && newId != "" && newId !in docs
      modifies this
      ensures Valid() && key == newId && docs == old(docs)[newId := model]
    {
      order := InsertKey(newId, order);
      docs := docs[newId := model];
      key := newId;
    }

    /** `Update`: merges the model into the document its `id` names. */
    method Update(model: Record)
      requires Valid() && HasId(model)
      modifies this
      ensures Valid() && docs == SetMerged(old(docs), model["id"].s, model)
    {
      SetMerge(model["id"].s, model);
    }

    /** `UnsafeUpdate`: the same merge, for a payload that is not a whole model. */
    method UnsafeUpdate(model: Record)
      requires Valid() && HasId(model)
      modifies this
      ensures Valid() && docs == SetMerged(old(docs), model["id"].s, model)
    {
      SetMerge(model["id"].s, model);
    }

    /**
     * `Upsert`: a model whose `id` is falsy (missing or `''`) is saved under a
     * fresh key, which is returned; otherwise it is merged and `None` returned.
     */
    method Upsert(model: Record, newId: string) returns (created: Option<string>)
      requires Valid()
      requires Truthy(Get(model, "id")) ==> Get(model, "id").Str?
      requires !Truthy(Get(model, "id")) ==> newId != "" && newId !in docs
      modifies this
      ensures Valid()
      ensures !Truthy(Get(model, "id")) ==> created == Some(newId) && docs == old(docs)[newId := model]
      ensures Truthy(Get(model, "id")) ==> created.None? && docs == SetMerged(old(docs), model["id"].s, model)
    {
      if !Truthy(Get(model, "id")) {
        var key := Save(model, newId);
        return Some(key);
      }
      Update(model);
      return None;
    }

    /** `Delete`: removes the document under `id`; the others stay as they are. */
    method Delete(id: string)
      requires Valid() && id != ""
      modifies this
      ensures Valid() && docs == old(docs) - {id}
    {
      FilterSorted(order, k => k != id, CodePointLess);
      order := Filter(order, k => k != id);
      docs := docs - {id};
    }

    /** `FindById`: the stored data overlaid on `{ id: key }`, or `None` for an unknown key. */
    function FindById(id: string): (r: Option<Record>)
      reads this
      requires id != ""
      ensures r.Some? <==> id in docs
      ensures r.Some? ==> r.value == WithId(id, docs[id])
    {
      if id in docs then Some(WithId(id, docs[id])) else None
    }

    /**
     * What a `Subscribe` callback receives: nothing for an empty collection,
     * otherwise every document, mapped like `FindById`, in key order.
     */
    function Snapshot(): (r: Option<seq<Record>>)
      reads this
      requires Valid()
      ensures r.None? <==> docs == map[]
      ensures r.Some? ==> |r.value| == |order| && forall i :: 0 <= i < |order| ==> Some(r.value[i]) == FindById(order[i])
      ensures r.Some? ==> forall k :: k in docs ==> exists i :: 0 <= i < |r.value| && r.value[i] == WithId(k, docs[k])
    {
      if |order| == 0 then
        assert forall k :: k !in docs;
        None
      else
        var d := docs;
        var keys := order;
        assert keys[0] in docs;
        var all := seq(|keys|, i requires 0 <= i < |keys| => WithId(keys[i], d[keys[i]]));
        assert forall k :: k in docs ==> exists i :: 0 <= i < |keys| && keys[i] == k;
        Some(all)
    }

    /**
     * `where(field, '==', value)` then `docs[0].data()`: the data of the first
     * document in key order whose field equals the value, without an id overlay.
     */
    function FirstWhere(field: string, value: string): (r: Option<Record>)
      reads this
      requires Valid()
      ensures r.None? <==> forall k :: k in docs ==> Get(docs[k], field) != Str(value)
      ensures r.Some? ==> exists k :: k in docs && docs[k] == r.value && Get(r.value, field) == Str(value)
      ensures r.Some? ==> exists i :: (0 <= i < |order| && order[i] in docs && docs[order[i]] == r.value
                && Get(r.value, field) == Str(value)
                && forall j :: 0 <= j < i ==> order[j] in docs && Get(docs[order[j]], field) != Str(value))
    {
      match FirstMatch(order, docs, field, value)
      case None => None
      case Some(k) => Some(docs[k])
    }
  }

  /** A document saved and then read back carries the saved fields, and its own `id` field wins over the key. */
  lemma SaveThenFind(docs: map<string, Record>, key: string, model: Record)
    ensures var found := WithId(key, docs[key := model][key]);
      && (forall f :: f in model ==> found[f] == model[f])
      && (found["id"] == if "id" in model then model["id"] else Str(key))
  {
  }

  /** After an update the document holds every field of the patch that is not a nested object, and the `id` it names. */
  lemma UpdateThenFind(docs: map<string, Record>, model: Record)
    requires HasId(model)
    ensures var id := model["id"].s;
      var found := WithId(id, SetMerged(docs, id, model)[id]);
      && found["id"] == Str(id)
      && (forall f :: f in model && !model[f].Obj? ==> found[f] == model[f])
      && (id in docs ==> forall f :: f in docs[id] && f !in model ==> found[f] == docs[id][f])
  {
  }
}
