/** The loaded tag file: a JSON object mapping an image id to its record,
    kept as a sequence of entries in the object's (insertion) order, which is
    the order in which Python iterates a dict. */
module TagIndex {

  datatype Option<T> = None | Some(value: T)

  /** Python's KeyError, carrying the key that was not found. */
  datatype KeyError = KeyError(key: string)

  datatype Result<T> = Ok(value: T) | Err(error: KeyError)

  /** One record of the tag file; a JSON key that is absent is None. */
  datatype Record = Record(tags: Option<seq<string>>, raw: Option<string>)
  {
    /** The record's tag list, defaulting to the empty list: `.get("tags", [])`. */
    function TagList(): (ts: seq<string>)
    {
      if tags.Some? then tags.value else []
    }

    /** The record's raw caption, defaulting to the empty string: `.get("raw", "")`. */
    function RawCaption(): (s: string)
    {
      if raw.Some? then raw.value else ""
    }
  }

  datatype Entry = Entry(id: string, rec: Record)

  type Index = seq<Entry>

  /** The keys of a dict are distinct. */
  predicate DistinctKeys(idx: Index)
  {
    forall i, j :: 0 <= i < j < |idx| ==> idx[i].id != idx[j].id
  }

  /** Distinct elements. */
  predicate NoDuplicates(s: seq<string>)
  {
    forall i, j :: 0 <= i < j < |s| ==> s[i] != s[j]
  }

  /** The image ids in index order: `[k for k in tags_dict.keys()]`. */
  function Keys(idx: Index): (ks: seq<string>)
    ensures |ks| == |idx|
    ensures forall i :: 0 <= i < |idx| ==> ks[i] == idx[i].id
  {
    if idx == [] then [] else Keys(idx[..|idx| - 1]) + [idx[|idx| - 1].id]
  }

  /** `tags_dict[id]`: the record stored under `id`, or a KeyError. */
  function Lookup(idx: Index, id: string): (r: Result<Record>)
    ensures r.Ok? <==> id in Keys(idx)
    ensures r.Err? ==> r.error == KeyError(id)
    ensures r.Ok? ==> exists i :: 0 <= i < |idx| && idx[i].id == id && idx[i].rec == r.value
  {
    if idx == [] then Err(KeyError(id))
    else if idx[0].id == id then Ok(idx[0].rec)
    else Lookup(idx[1..], id)
  }

  /** In a dict, looking up the key of an entry yields that entry's record. */
  lemma {:induction false} LookupAt(idx: Index, i: nat)
    requires DistinctKeys(idx)
    requires i < |idx|
    ensures Lookup(idx, idx[i].id) == Ok(idx[i].rec)
  {
    if i > 0 {
      assert idx[0].id != idx[i].id;
      assert DistinctKeys(idx[1..]) by {
        forall a, b | 0 <= a < b < |idx[1..]| ensures idx[1..][a].id != idx[1..][b].id {
          assert idx[1..][a] == idx[a + 1] && idx[1..][b] == idx[b + 1];
        }
      }
      LookupAt(idx[1..], i - 1);
    }
  }

  /** `get_image_tags`: the image's tag list, `[]` when its record has no
      "tags" key, and a KeyError when the image is not in the index. */
  function GetImageTags(idx: Index, id: string): (r: Result<seq<string>>)
    ensures r.Ok? <==> id in Keys(idx)
    ensures r.Err? ==> r.error == KeyError(id)
    ensures r.Ok? ==> exists i :: 0 <= i < |idx| && idx[i].id == id && r.value == idx[i].rec.TagList()
  {
    match Lookup(idx, id)
    case Err(e) => Err(e)
    case Ok(rec) => Ok(rec.TagList())
  }

  /** `get_image_captions`: the image's "raw" caption, `""` when its record
      has none, and a KeyError when the image is not in the index. */
  function GetImageCaptions(idx: Index, id: string): (r: Result<string>)
    ensures r.Ok? <==> id in Keys(idx)
    ensures r.Err? ==> r.error == KeyError(id)
    ensures r.Ok? ==> exists i :: 0 <= i < |idx| && idx[i].id == id && r.value == idx[i].rec.RawCaption()
  {
    match Lookup(idx, id)
    case Err(e) => Err(e)
    case Ok(rec) => Ok(rec.RawCaption())
  }

  /** `[tags["tags"] for tags in tags_dict.values()]`: every record's tag list
      in index order; the first record without a "tags" key raises KeyError. */
  function NestedTags(idx: Index): (r: Result<seq<seq<string>>>)
    ensures r.Ok? <==> forall i :: 0 <= i < |idx| ==> idx[i].rec.tags.Some?
    ensures r.Err? ==> r.error == KeyError("tags")
    ensures r.Ok? ==> |r.value| == |idx| &&
                      forall i :: 0 <= i < |idx| ==> r.value[i] == idx[i].rec.tags.value
  {
    if idx == [] then Ok([])
    else if idx[0].rec.tags.None? then Err(KeyError("tags"))
    else match NestedTags(idx[1..])
      case Err(e) => Err(e)
      case Ok(rest) => Ok([idx[0].rec.tags.value] + rest)
  }
}
