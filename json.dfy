/** JSON values as `serde_json::Value` holds them, and the field access that serde's
    derived deserialisers perform on them. The text form of JSON stays outside the
    model: the client is given its serialiser and parser. */
module Json {
  import opened Wrappers

  /** A JSON value. Numbers are integers; an object maps each key to one value. */
  datatype Json =
    | JNull
    | JBool(b: bool)
    | JNumber(n: int)
    | JString(s: string)
    | JArray(elems: seq<Json>)
    | JObject(fields: map<string, Json>)

  const U64_MAX: nat := 0xFFFF_FFFF_FFFF_FFFF
  const U32_MAX: nat := 0xFFFF_FFFF
  const I32_MIN: int := -0x8000_0000
  const I32_MAX: int := 0x7FFF_FFFF

  /** serde's `u64` deserialiser: a non-negative integer that fits 64 bits. */
  function AsU64(v: Json): (r: Option<nat>)
    ensures r.Some? <==> v.JNumber? && 0 <= v.n <= U64_MAX
    ensures r.Some? ==> r.value == v.n
  {
    if v.JNumber? && 0 <= v.n <= U64_MAX then Some(v.n) else None
  }

  /** All of `names` are keys of the object `v`. */
  predicate HasFields(v: Json, names: seq<string>) {
    v.JObject? && forall i :: 0 <= i < |names| ==> names[i] in v.fields
  }

  /** The fields a derived struct visitor reads from a map: every named field must be
      present (none of the fields used here is optional); other keys are ignored.
      This is the only form an untagged enum's struct variant accepts. */
  function ObjectFields(v: Json, names: seq<string>): (r: Option<seq<Json>>)
    ensures r.Some? <==> HasFields(v, names)
    ensures r.Some? ==> |r.value| == |names| && forall i :: 0 <= i < |names| ==> r.value[i] == v.fields[names[i]]
  {
    if HasFields(v, names) then Some(seq(|names|, i requires 0 <= i < |names| => v.fields[names[i]])) else None
  }

  /** The fields a plain derived struct reads: a map as above, or an array holding
      exactly one value per field, in declaration order. */
  function StructFields(v: Json, names: seq<string>): (r: Option<seq<Json>>)
    ensures r.Some? ==> |r.value| == |names|
    ensures v.JObject? ==> r == ObjectFields(v, names)
    ensures v.JArray? ==> (r.Some? <==> |v.elems| == |names|) && (r.Some? ==> r.value == v.elems)
    ensures !v.JObject? && !v.JArray? ==> r.None?
  {
    match v
    case JArray(es) => if |es| == |names| then Some(es) else None
    case _ => ObjectFields(v, names)
  }

  /** Keys a struct does not declare are ignored: adding or replacing one leaves the
      fields read unchanged. */
  lemma ExtraFieldsIgnored(fields: map<string, Json>, key: string, value: Json, names: seq<string>)
    requires forall i :: 0 <= i < |names| ==> names[i] != key
    ensures StructFields(JObject(fields[key := value]), names) == StructFields(JObject(fields), names)
  {
    var v, w := JObject(fields[key := value]), JObject(fields);
    assert HasFields(v, names) <==> HasFields(w, names);
    if HasFields(w, names) {
      assert ObjectFields(v, names).value == ObjectFields(w, names).value;
    }
  }

  /** A derived struct reads an object and the array of that object's field values,
      in declaration order, to the same fields. */
  lemma PositionalForm(v: Json, names: seq<string>)
    requires HasFields(v, names)
    ensures StructFields(JArray(ObjectFields(v, names).value), names) == StructFields(v, names)
  {
  }
}
