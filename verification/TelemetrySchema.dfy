/**
 The telemetry schema of a GPU snapshot (apps/gpu-bridge-host): its JSON descriptor and the
 deserialiser that reads the descriptor back.
 */
module TelemetrySchema {
  import opened Outcome
  import opened Text
  import Json
  import JsonGrammar

  type usize = n: nat | n <= Json.USIZE_MAX

  datatype Schema = Schema(version: string, maxRecordBytes: usize, required: seq<string>, optional: seq<string>)

  datatype SchemaError = BadJson | MissingVersion | ZeroRecordLimit

  const VERSION_KEY := "schema_version"
  const LIMIT_KEY := "max_record_bytes"
  const REQUIRED_KEY := "required_fields"
  const OPTIONAL_KEY := "optional_fields"

  function SchemaMembers(s: Schema): seq<(string, Json.Printed)> {
    [(VERSION_KEY, Json.PStr(Json.Bridge, s.version)),
     (LIMIT_KEY, Json.PInt(s.maxRecordBytes)),
     (REQUIRED_KEY, Json.PList(Json.Bridge, s.required)),
     (OPTIONAL_KEY, Json.PList(Json.Bridge, s.optional))]
  }

  /** `TelemetrySchema::descriptor_json`: the four members in order, without white space. */
  function Descriptor(s: Schema): string {
    Json.ObjectText(SchemaMembers(s), "")
  }

  /** The derived deserialiser: an object with the four keys once each, or an array of the four values. */
  function SchemaOfJson(v: Json.Value): Option<Schema> {
    match v
    case Object(members) =>
      var version :- Json.Single(members, VERSION_KEY);
      var limit :- Json.Single(members, LIMIT_KEY);
      var required :- Json.Single(members, REQUIRED_KEY);
      var optional :- Json.Single(members, OPTIONAL_KEY);
      SchemaOfValues(version, limit, required, optional)
    case Array(items) =>
      if |items| == 4 then SchemaOfValues(items[0], items[1], items[2], items[3]) else None
    case _ => None
  }

  function SchemaOfValues(version: Json.Value, limit: Json.Value, required: Json.Value, optional: Json.Value)
    : Option<Schema>
  {
    var version :- Json.AsString(version);
    var limit :- Json.AsUsize(limit);
    var required :- Json.AsStringList(required);
    var optional :- Json.AsStringList(optional);
    Some(Schema(version, limit, required, optional))
  }

  /** `parse_telemetry_schema`. */
  function ParseSchema(json: string): (r: Result<Schema, SchemaError>)
    ensures r.Ok? ==> r.value.version != [] && r.value.maxRecordBytes > 0
  {
    var doc :- OkOr(Json.ReadDocument(json), BadJson);
    var schema :- OkOr(SchemaOfJson(doc), BadJson);
    if schema.version == [] then Err(MissingVersion)
    else if schema.maxRecordBytes == 0 then Err(ZeroRecordLimit)
    else Ok(schema)
  }

  lemma {:induction false} PlainKeys()
    ensures Json.IsPlain(VERSION_KEY) && Json.IsPlain(LIMIT_KEY) && Json.IsPlain(REQUIRED_KEY) && Json.IsPlain(OPTIONAL_KEY)
    ensures VERSION_KEY[0] == 's' && LIMIT_KEY[0] == 'm' && REQUIRED_KEY[0] == 'r' && OPTIONAL_KEY[0] == 'o'
  {}

  /** A key that differs from all the others is found where it stands. */
  lemma {:induction false} SingleAt(ms: seq<Json.Member>, k: nat)
    requires k < |ms|
    requires forall i :: 0 <= i < |ms| && i != k ==> ms[i].key != ms[k].key
    ensures Json.Single(ms, ms[k].key) == Some(ms[k].value)
    decreases |ms|
  {
    if k > 0 {
      SingleAt(ms[1..], k - 1);
    }
  }

  lemma {:induction false} MembersAreSingle(s: Schema)
    ensures var ms := Json.Meanings(SchemaMembers(s));
            && Json.Single(ms, VERSION_KEY) == Some(Json.Str(s.version))
            && Json.Single(ms, LIMIT_KEY) == Some(Json.Number(Decimal(s.maxRecordBytes)))
            && Json.Single(ms, REQUIRED_KEY) == Some(Json.Array(Json.AsValues(s.required)))
            && Json.Single(ms, OPTIONAL_KEY) == Some(Json.Array(Json.AsValues(s.optional)))
  {
    hide Json.AsValues, Decimal, Json.Meanings, Json.Single;
    PlainKeys();
    var ms := Json.Meanings(SchemaMembers(s));
    SingleAt(ms, 0);
    SingleAt(ms, 1);
    SingleAt(ms, 2);
    SingleAt(ms, 3);
  }

  /** The embedded descriptor parses back to the schema, for every schema the parser admits. */
  lemma {:induction false} SchemaRoundTrip(s: Schema)
    requires s.version != [] && s.maxRecordBytes > 0
    ensures ParseSchema(Descriptor(s)) == Ok(s)
  {
    hide Json.ReadDocument, Json.Single, Json.AsValues, Json.AsStrings, Decimal, DigitsValue, Json.Meanings, Json.ObjectText, Json.IsPlain;
    PlainKeys();
    Json.ReadObject(SchemaMembers(s), "");
    MembersAreSingle(s);
    DigitsValueOfDecimal(s.maxRecordBytes);
    Json.AsStringsOfValues(s.required);
    Json.AsStringsOfValues(s.optional);
  }

  /** Whatever text the parser accepts, its schema prints to a descriptor that parses back to it. */
  lemma {:induction false} AcceptedReparses(json: string)
    requires ParseSchema(json).Ok?
    ensures ParseSchema(Descriptor(ParseSchema(json).value)) == ParseSchema(json)
  {
    hide ParseSchema, Descriptor;
    SchemaRoundTrip(ParseSchema(json).value);
  }

  // ----- which documents are schemas -----

  /** Exactly one member has the key, and it has the value. */
  predicate Once(ms: seq<Json.Member>, key: string, value: Json.Value) {
    exists k :: 0 <= k < |ms| && ms[k] == Json.Member(key, value)
                && forall i :: 0 <= i < |ms| && i != k ==> ms[i].key != key
  }

  predicate IsCount(v: Json.Value, n: nat) {
    v.Number? && AllDigits(v.lexeme) && DigitsValue(v.lexeme) == n
  }

  predicate IsList(v: Json.Value, names: seq<string>) {
    v.Array? && |v.items| == |names| && forall i :: 0 <= i < |names| ==> v.items[i] == Json.Str(names[i])
  }

  predicate Holds(version: Json.Value, limit: Json.Value, required: Json.Value, optional: Json.Value, s: Schema) {
    version == Json.Str(s.version) && IsCount(limit, s.maxRecordBytes) && IsList(required, s.required)
    && IsList(optional, s.optional)
  }

  /** The four members once each, in any order and among any others, or the four values in a list. */
  ghost predicate Says(v: Json.Value, s: Schema) {
    || (v.Object? && exists version, limit, required, optional ::
          && Once(v.members, "schema_version", version)
          && Once(v.members, "max_record_bytes", limit)
          && Once(v.members, "required_fields", required)
          && Once(v.members, "optional_fields", optional)
          && Holds(version, limit, required, optional, s))
    || (v.Array? && |v.items| == 4 && Holds(v.items[0], v.items[1], v.items[2], v.items[3], s))
  }

  lemma {:induction false} SingleIff(ms: seq<Json.Member>, key: string, value: Json.Value)
    ensures Json.Single(ms, key) == Some(value) <==> Once(ms, key, value)
    decreases |ms|
  {
    if k :| 0 <= k < |ms| && ms[k] == Json.Member(key, value)
            && forall i :: 0 <= i < |ms| && i != k ==> ms[i].key != key {
      SingleAt(ms, k);
    }
    if Json.Single(ms, key) == Some(value) {
      SingleIsOnce(ms, key, value);
    }
  }

  lemma {:induction false} SingleIsOnce(ms: seq<Json.Member>, key: string, value: Json.Value)
    requires Json.Single(ms, key) == Some(value)
    ensures Once(ms, key, value)
    decreases |ms|
  {
    if ms[0].key == key {
      assert ms[0] == Json.Member(key, value);
      forall i | 0 < i < |ms| ensures ms[i].key != key {
        assert ms[1..][i - 1] == ms[i];
      }
    } else {
      SingleIsOnce(ms[1..], key, value);
      var k :| 0 <= k < |ms[1..]| && ms[1..][k] == Json.Member(key, value)
               && forall i :: 0 <= i < |ms[1..]| && i != k ==> ms[1..][i].key != key;
      assert ms[k + 1] == Json.Member(key, value);
      forall i | 0 <= i < |ms| && i != k + 1 ensures ms[i].key != key {
        if i > 0 {
          assert ms[1..][i - 1] == ms[i];
        }
      }
    }
  }

  lemma {:induction false} StringsIff(items: seq<Json.Value>, names: seq<string>)
    ensures Json.AsStrings(items) == Some(names) <==> IsList(Json.Array(items), names)
    decreases |items|
  {
    if items != [] && names != [] {
      StringsIff(items[1..], names[1..]);
      if IsList(Json.Array(items), names) {
        assert items[0] == Json.Str(names[0]);
        assert names == [names[0]] + names[1..];
      }
      if Json.AsStrings(items) == Some(names) {
        assert items[0] == Json.Str(names[0]);
        forall i | 0 <= i < |names| ensures items[i] == Json.Str(names[i]) {
          if i > 0 {
            assert items[1..][i - 1] == Json.Str(names[1..][i - 1]);
          }
        }
      }
    }
  }

  lemma {:induction false} ValuesIff(version: Json.Value, limit: Json.Value, required: Json.Value, optional: Json.Value, s: Schema)
    ensures SchemaOfValues(version, limit, required, optional) == Some(s) <==> Holds(version, limit, required, optional, s)
  {
    hide Json.AsStrings, DigitsValue;
    if required.Array? {
      StringsIff(required.items, s.required);
    }
    if optional.Array? {
      StringsIff(optional.items, s.optional);
    }
    hide IsList;
  }

  /** Exactly the documents that say the schema give it. */
  lemma {:induction false} SchemaOfJsonIff(v: Json.Value, s: Schema)
    ensures SchemaOfJson(v) == Some(s) <==> Says(v, s)
  {
    hide SchemaOfValues, Holds, Once, Json.Single;
    if v.Object? {
      if SchemaOfJson(v) == Some(s) {
        var version, limit := Json.Single(v.members, VERSION_KEY).value, Json.Single(v.members, LIMIT_KEY).value;
        var required, optional := Json.Single(v.members, REQUIRED_KEY).value, Json.Single(v.members, OPTIONAL_KEY).value;
        MembersIff(v, version, limit, required, optional, s);
      }
      if version, limit, required, optional :|
           && Once(v.members, "schema_version", version)
           && Once(v.members, "max_record_bytes", limit)
           && Once(v.members, "required_fields", required)
           && Once(v.members, "optional_fields", optional)
           && Holds(version, limit, required, optional, s) {
        MembersIff(v, version, limit, required, optional, s);
      }
    } else if v.Array? && |v.items| == 4 {
      ValuesIff(v.items[0], v.items[1], v.items[2], v.items[3], s);
    }
  }

  lemma {:induction false} MembersIff(v: Json.Value, version: Json.Value, limit: Json.Value, required: Json.Value, optional: Json.Value, s: Schema)
    requires v.Object?
    ensures Json.Single(v.members, VERSION_KEY) == Some(version) <==> Once(v.members, "schema_version", version)
    ensures Json.Single(v.members, LIMIT_KEY) == Some(limit) <==> Once(v.members, "max_record_bytes", limit)
    ensures Json.Single(v.members, REQUIRED_KEY) == Some(required) <==> Once(v.members, "required_fields", required)
    ensures Json.Single(v.members, OPTIONAL_KEY) == Some(optional) <==> Once(v.members, "optional_fields", optional)
    ensures SchemaOfValues(version, limit, required, optional) == Some(s) <==> Holds(version, limit, required, optional, s)
  {
    hide SchemaOfValues, Holds, Once, Json.Single;
    SingleIff(v.members, "schema_version", version);
    SingleIff(v.members, "max_record_bytes", limit);
    SingleIff(v.members, "required_fields", required);
    SingleIff(v.members, "optional_fields", optional);
    ValuesIff(version, limit, required, optional, s);
  }

  /** The text is a JSON document that says the schema. */
  ghost predicate Gives(json: string, s: Schema) {
    exists v :: JsonGrammar.PaddedText(json, v) && Says(v, s)
  }

  lemma {:induction false} GivesIff(json: string, s: Schema)
    ensures Gives(json, s) <==> Json.ReadDocument(json).Some? && SchemaOfJson(Json.ReadDocument(json).value) == Some(s)
  {
    hide Json.ReadDocument, SchemaOfJson, Says, JsonGrammar.PaddedText;
    if v :| JsonGrammar.PaddedText(json, v) && Says(v, s) {
      JsonGrammar.ReadDocumentIff(json, v);
      SchemaOfJsonIff(v, s);
    }
    if Json.ReadDocument(json).Some? && SchemaOfJson(Json.ReadDocument(json).value) == Some(s) {
      JsonGrammar.ReadDocumentIff(json, Json.ReadDocument(json).value);
      SchemaOfJsonIff(Json.ReadDocument(json).value, s);
    }
  }

  /** A text is accepted exactly when it gives a schema with a version and a positive limit, and which error each other text gets. */
  lemma {:induction false} ParseSchemaIff(json: string, s: Schema)
    ensures ParseSchema(json) == Ok(s) <==> Gives(json, s) && s.version != "" && s.maxRecordBytes > 0
    ensures Gives(json, s) && s.version == "" ==> ParseSchema(json) == Err(MissingVersion)
    ensures Gives(json, s) && s.version != "" && s.maxRecordBytes == 0 ==> ParseSchema(json) == Err(ZeroRecordLimit)
    ensures ParseSchema(json) == Err(BadJson) <==> !exists t :: Gives(json, t)
  {
    hide Json.ReadDocument, SchemaOfJson, Gives;
    forall t ensures Gives(json, t) <==>
                       Json.ReadDocument(json).Some? && SchemaOfJson(Json.ReadDocument(json).value) == Some(t) {
      GivesIff(json, t);
    }
    if Json.ReadDocument(json).Some? && SchemaOfJson(Json.ReadDocument(json).value).Some? {
      assert Gives(json, SchemaOfJson(Json.ReadDocument(json).value).value);
    }
  }
}
