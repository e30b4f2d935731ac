/**
 The wire form of a GPU namespace snapshot (apps/gpu-bridge-host): keyed text lines whose payloads
 are Base64, printed by `namespace_to_wire` and parsed by `parse_wire_snapshot`.
 */
module GpuWire {
  import opened Outcome
  import opened Text
  import opened TelemetrySchema
  import Base64
  import Utf8

  type byte = Utf8.byte

  datatype Node = Node(id: string, info: string, ctl: string, lease: string, status: string)
  datatype Manifest = Manifest(id: string, toml: string)
  datatype Catalog = Catalog(available: seq<Manifest>, active: string)
  datatype Snapshot = Snapshot(nodes: seq<Node>, models: Catalog, schema: Schema)

  datatype Error =
    | NotUtf8
    | DataAfterEnd
    | MissingKeyword
    | MissingSchemaValue
    | UnsupportedSchema(found: string)
    | UnexpectedTokens
    | UnsupportedLine(keyword: string)
    | MissingEquals(part: string)
    | UnsupportedField(key: string)
    | MissingField(name: string)
    | BadBase64(name: string)
    | FieldNotUtf8(name: string)
    | BadSchema(why: SchemaError)
    | MissingSchemaLine
    | MissingEnd
    | MissingActive
    | ActiveNotListed
    | MissingTelemetry

  const WIRE_SCHEMA := "gpu-bridge-snapshot/v1"

  // ----- printing -----

  function Encoded(payload: string): string {
    Base64.Encode(Utf8.Encode(payload))
  }

  /** `key=value` words in order. */
  function FieldWords(pairs: seq<(string, string)>): (r: seq<string>)
    ensures |r| == |pairs|
    decreases |pairs|
  {
    if pairs == [] then [] else [pairs[0].0 + "=" + pairs[0].1] + FieldWords(pairs[1..])
  }

  function NodePairs(n: Node): seq<(string, string)> {
    [("id", n.id), ("info", Encoded(n.info)), ("ctl", Encoded(n.ctl)), ("lease", Encoded(n.lease)), ("status", Encoded(n.status))]
  }

  function ModelPairs(m: Manifest): seq<(string, string)> {
    [("id", m.id), ("manifest", Encoded(m.toml))]
  }

  function NodeWords(n: Node): seq<string> {
    ["node"] + FieldWords(NodePairs(n))
  }

  function ModelWords(m: Manifest): seq<string> {
    ["model"] + FieldWords(ModelPairs(m))
  }

  function ActiveWords(id: string): seq<string> {
    ["active"] + FieldWords([("id", id)])
  }

  function TelemetryWords(schema: Schema): seq<string> {
    ["telemetry"] + FieldWords([("schema", Encoded(Descriptor(schema)))])
  }

  function NodeLines(nodes: seq<Node>): seq<string>
    decreases |nodes|
  {
    if nodes == [] then [] else [Join(NodeWords(nodes[0]), " ")] + NodeLines(nodes[1..])
  }

  function ModelLines(models: seq<Manifest>): seq<string>
    decreases |models|
  {
    if models == [] then [] else [Join(ModelWords(models[0]), " ")] + ModelLines(models[1..])
  }

  function TailLines(s: Snapshot): seq<string> {
    [Join(ActiveWords(s.models.active), " "), Join(TelemetryWords(s.schema), " "), "end"]
  }

  function WireLines(s: Snapshot): seq<string> {
    [Join(["schema", WIRE_SCHEMA], " ")] + (NodeLines(s.nodes) + (ModelLines(s.models.available) + TailLines(s)))
  }

  /** Each line followed by a newline, as `writeln!` appends them. */
  function Unlines(lines: seq<string>): string
    decreases |lines|
  {
    if lines == [] then [] else lines[0] + "\n" + Unlines(lines[1..])
  }

  /** The wire bytes of a snapshot. */
  function Wire(s: Snapshot): seq<byte> {
    Utf8.Encode(Unlines(WireLines(s)))
  }

  lemma {:induction false} UnlinesConcat(a: seq<string>, b: seq<string>)
    ensures Unlines(a + b) == Unlines(a) + Unlines(b)
    decreases |a|
  {
    if a == [] {
      assert a + b == b;
    } else {
      UnlinesConcat(a[1..], b);
      assert (a + b)[1..] == a[1..] + b;
    }
  }

  lemma {:induction false} UnlinesSnoc(a: seq<string>, line: string)
    ensures Unlines(a + [line]) == Unlines(a) + line + "\n"
  {
    UnlinesConcat(a, [line]);
    assert Unlines([line]) == line + "\n" + Unlines([]);
  }

  lemma {:induction false} NodeLinesSnoc(a: seq<Node>, n: Node)
    ensures NodeLines(a + [n]) == NodeLines(a) + [Join(NodeWords(n), " ")]
    decreases |a|
  {
    hide NodeWords, Join;
    if a == [] {
      assert (a + [n])[1..] == [];
    } else {
      NodeLinesSnoc(a[1..], n);
      assert (a + [n])[1..] == a[1..] + [n];
    }
  }

  lemma {:induction false} ModelLinesSnoc(a: seq<Manifest>, m: Manifest)
    ensures ModelLines(a + [m]) == ModelLines(a) + [Join(ModelWords(m), " ")]
    decreases |a|
  {
    hide ModelWords, Join;
    if a == [] {
      assert (a + [m])[1..] == [];
    } else {
      ModelLinesSnoc(a[1..], m);
      assert (a + [m])[1..] == a[1..] + [m];
    }
  }

  /** `namespace_to_wire`: one growing buffer, a loop over the nodes and a loop over the manifests. */
  method NamespaceToWire(s: Snapshot) returns (bytes: seq<byte>)
    ensures bytes == Wire(s)
  {
    hide Join, NodeWords, ModelWords, TailLines, NodeLines, ModelLines, Utf8.Encode, Unlines;
    ghost var lines := [Join(["schema", WIRE_SCHEMA], " ")];
    ghost var head := lines;
    var out := Join(["schema", WIRE_SCHEMA], " ") + "\n";
    UnlinesSnoc([], lines[0]);
    EmptyPrints();
    assert [] + [lines[0]] == lines;
    for i := 0 to |s.nodes|
      invariant lines == head + NodeLines(s.nodes[..i])
      invariant out == Unlines(lines)
    {
      assert s.nodes[..i + 1] == s.nodes[..i] + [s.nodes[i]];
      NodeLinesSnoc(s.nodes[..i], s.nodes[i]);
      var line := Join(NodeWords(s.nodes[i]), " ");
      out := out + line + "\n";
      UnlinesSnoc(lines, line);
      lines := lines + [line];
    }
    assert s.nodes[..|s.nodes|] == s.nodes;
    head := lines;
    for i := 0 to |s.models.available|
      invariant lines == head + ModelLines(s.models.available[..i])
      invariant out == Unlines(lines)
    {
      var m := s.models.available[i];
      assert s.models.available[..i + 1] == s.models.available[..i] + [m];
      ModelLinesSnoc(s.models.available[..i], m);
      var line := Join(ModelWords(m), " ");
      out := out + line + "\n";
      UnlinesSnoc(lines, line);
      lines := lines + [line];
    }
    assert s.models.available[..|s.models.available|] == s.models.available;
    ghost var body := lines;
    var tail := TailLines(s);
    TailHasThree(s);
    for i := 0 to 3
      invariant lines == body + tail[..i]
      invariant out == Unlines(lines)
    {
      out := out + tail[i] + "\n";
      UnlinesSnoc(lines, tail[i]);
      lines := lines + [tail[i]];
    }
    assert tail[..3] == tail;
    assert lines == WireLines(s);
    bytes := Utf8.Encode(out);
  }

  lemma {:induction false} EmptyPrints()
    ensures Unlines([]) == [] && NodeLines([]) == [] && ModelLines([]) == []
  {}

  lemma {:induction false} TailHasThree(s: Snapshot)
    ensures |TailLines(s)| == 3
  {}

  // ----- parsing -----

  /** The variables of the parse loop. */
  datatype Progress = Progress(
    schemaSeen: bool,
    nodes: seq<Node>,
    models: seq<Manifest>,
    active: Option<string>,
    schema: Option<Schema>,
    ended: bool)

  const START := Progress(false, [], [], None, None, false)

  /** The `key=value` loop shared by the keyed lines: later values replace earlier ones. */
  function Collect(parts: seq<string>, allowed: seq<string>, acc: map<string, string>): Result<map<string, string>, Error>
    decreases |parts|
  {
    if parts == [] then Ok(acc)
    else
      var (key, value) :- OkOr(SplitOnce(parts[0], '='), MissingEquals(parts[0]));
      if key !in allowed then Err(UnsupportedField(key))
      else Collect(parts[1..], allowed, acc[key := value])
  }

  function Field(fields: map<string, string>, name: string): Result<string, Error> {
    if name in fields then Ok(fields[name]) else Err(MissingField(name))
  }

  /** `decode_b64_string`. */
  function DecodeField(fields: map<string, string>, name: string): Result<string, Error> {
    var value :- Field(fields, name);
    var bytes :- OkOr(Base64.Decode(value), BadBase64(name));
    OkOr(Utf8.Decode(bytes), FieldNotUtf8(name))
  }

  function NodeOf(fields: map<string, string>): Result<Node, Error> {
    var id :- Field(fields, "id");
    var info :- DecodeField(fields, "info");
    var ctl :- DecodeField(fields, "ctl");
    var lease :- DecodeField(fields, "lease");
    var status :- DecodeField(fields, "status");
    Ok(Node(id, info, ctl, lease, status))
  }

  function ModelOf(fields: map<string, string>): Result<Manifest, Error> {
    var id :- Field(fields, "id");
    var toml :- DecodeField(fields, "manifest");
    Ok(Manifest(id, toml))
  }

  function SchemaOf(fields: map<string, string>): Result<Schema, Error> {
    var json :- DecodeField(fields, "schema");
    var parsed := ParseSchema(json);
    if parsed.Ok? then Ok(parsed.value) else Err(BadSchema(parsed.error))
  }

  const NODE_FIELDS := ["id", "info", "ctl", "lease", "status"]
  const MODEL_FIELDS := ["id", "manifest"]
  const ACTIVE_FIELDS := ["id"]
  const TELEMETRY_FIELDS := ["schema"]

  /** One keyed line, its keyword already split off. */
  function Keyed(p: Progress, keyword: string, parts: seq<string>): Result<Progress, Error> {
    if keyword == "schema" then
      if parts == [] then Err(MissingSchemaValue)
      else if parts[0] != WIRE_SCHEMA then Err(UnsupportedSchema(parts[0]))
      else if |parts| > 1 then Err(UnexpectedTokens)
      else Ok(p.(schemaSeen := true))
    else if keyword == "node" then
      var fields :- Collect(parts, NODE_FIELDS, map[]);
      var node :- NodeOf(fields);
      Ok(p.(nodes := p.nodes + [node]))
    else if keyword == "model" then
      var fields :- Collect(parts, MODEL_FIELDS, map[]);
      var model :- ModelOf(fields);
      Ok(p.(models := p.models + [model]))
    else if keyword == "active" then
      var fields :- Collect(parts, ACTIVE_FIELDS, map[]);
      var id :- Field(fields, "id");
      Ok(p.(active := Some(id)))
    else if keyword == "telemetry" then
      var fields :- Collect(parts, TELEMETRY_FIELDS, map[]);
      var schema :- SchemaOf(fields);
      Ok(p.(schema := Some(schema)))
    else Err(UnsupportedLine(keyword))
  }

  function ParseLine(p: Progress, raw: string): Result<Progress, Error> {
    var line := Trim(raw);
    if line == [] then Ok(p)
    else if p.ended then Err(DataAfterEnd)
    else if line == "end" then Ok(p.(ended := true))
    else
      var parts := Words(line);
      if parts == [] then Err(MissingKeyword) else Keyed(p, parts[0], parts[1..])
  }

  function ParseLines(lines: seq<string>, p: Progress): Result<Progress, Error>
    decreases |lines|
  {
    if lines == [] then Ok(p)
    else
      var next :- ParseLine(p, lines[0]);
      ParseLines(lines[1..], next)
  }

  predicate Lists(models: seq<Manifest>, id: string) {
    exists i :: 0 <= i < |models| && models[i].id == id
  }

  function Finish(p: Progress): Result<Snapshot, Error> {
    if !p.schemaSeen then Err(MissingSchemaLine)
    else if !p.ended then Err(MissingEnd)
    else if p.active.None? then Err(MissingActive)
    else if p.models != [] && !Lists(p.models, p.active.value) then Err(ActiveNotListed)
    else if p.schema.None? then Err(MissingTelemetry)
    else Ok(Snapshot(p.nodes, Catalog(p.models, p.active.value), p.schema.value))
  }

  /** `parse_wire_snapshot`. */
  function Parse(bytes: seq<byte>): Result<Snapshot, Error> {
    var text :- OkOr(Utf8.Decode(bytes), NotUtf8);
    var p :- ParseLines(Lines(text), START);
    Finish(p)
  }

  method CollectFields(parts: seq<string>, allowed: seq<string>) returns (r: Result<map<string, string>, Error>)
    ensures r == Collect(parts, allowed, map[])
  {
    var fields: map<string, string> := map[];
    for i := 0 to |parts|
      invariant Collect(parts, allowed, map[]) == Collect(parts[i..], allowed, fields)
    {
      hide SplitOnce;
      var pair := SplitOnce(parts[i], '=');
      if pair.None? {
        return Err(MissingEquals(parts[i]));
      }
      if pair.value.0 !in allowed {
        return Err(UnsupportedField(pair.value.0));
      }
      fields := fields[pair.value.0 := pair.value.1];
      assert parts[i..][1..] == parts[i + 1..];
    }
    return Ok(fields);
  }

  /** The keyword dispatch; each keyed line runs the field loop. */
  method ParseKeyed(p: Progress, keyword: string, parts: seq<string>) returns (r: Result<Progress, Error>)
    ensures r == Keyed(p, keyword, parts)
  {
    hide Collect, NodeOf, ModelOf, SchemaOf;
    match keyword {
      case "schema" =>
        if parts == [] {
          return Err(MissingSchemaValue);
        }
        if parts[0] != WIRE_SCHEMA {
          return Err(UnsupportedSchema(parts[0]));
        }
        if |parts| > 1 {
          return Err(UnexpectedTokens);
        }
        r := Ok(p.(schemaSeen := true));
      case "node" =>
        var fields :- CollectFields(parts, NODE_FIELDS);
        var node :- NodeOf(fields);
        r := Ok(p.(nodes := p.nodes + [node]));
      case "model" =>
        var fields :- CollectFields(parts, MODEL_FIELDS);
        var model :- ModelOf(fields);
        r := Ok(p.(models := p.models + [model]));
      case "active" =>
        var fields :- CollectFields(parts, ACTIVE_FIELDS);
        var id :- Field(fields, "id");
        r := Ok(p.(active := Some(id)));
      case "telemetry" =>
        var fields :- CollectFields(parts, TELEMETRY_FIELDS);
        var parsed :- SchemaOf(fields);
        r := Ok(p.(schema := Some(parsed)));
      case _ =>
        r := Err(UnsupportedLine(keyword));
    }
  }

  /** The parse loop over the lines. */
  method ParseWireSnapshot(bytes: seq<byte>) returns (r: Result<Snapshot, Error>)
    ensures r == Parse(bytes)
  {
    hide Keyed, Words, Trim, Lines, Utf8.Decode;
    var text :- OkOr(Utf8.Decode(bytes), NotUtf8);
    var lines, p := Lines(text), START;
    for i := 0 to |lines|
      invariant ParseLines(lines, START) == ParseLines(lines[i..], p)
    {
      assert lines[i..][0] == lines[i] && lines[i..][1..] == lines[i + 1..];
      var line := Trim(lines[i]);
      if line == [] {
        continue;
      }
      if p.ended {
        return Err(DataAfterEnd);
      }
      if line == "end" {
        p := p.(ended := true);
        continue;
      }
      var words := Words(line);
      if words == [] {
        return Err(MissingKeyword);
      }
      p :- ParseKeyed(p, words[0], words[1..]);
    }
    r := Finish(p);
  }
}
