/**
 The wire form carries a snapshot faithfully: what `namespace_to_wire` prints, `parse_wire_snapshot`
 reads back, exactly for the snapshots the parser can produce at all.
 */
module GpuRoundTrip {
  import opened Outcome
  import opened Text
  import opened TelemetrySchema
  import opened GpuWire
  import Base64
  import Utf8

  /** Identifiers without white space, an active model that is listed, a usable telemetry schema. */
  predicate Printable(s: Snapshot) {
    && (forall i :: 0 <= i < |s.nodes| ==> NoWhitespace(s.nodes[i].id))
    && (forall i :: 0 <= i < |s.models.available| ==> NoWhitespace(s.models.available[i].id))
    && NoWhitespace(s.models.active)
    && (s.models.available == [] || exists i :: 0 <= i < |s.models.available| && s.models.available[i].id == s.models.active)
    && s.schema.version != [] && s.schema.maxRecordBytes > 0
  }

  // ----- lines made of words -----

  lemma {:induction false} JoinHasNoNewline(ws: seq<string>)
    requires AllWords(ws)
    ensures '\n' !in Join(ws, " ")
    decreases |ws|
  {
    if |ws| > 0 {
      assert IsWord(ws[0]) && '\n' !in ws[0];
    }
    if |ws| > 1 {
      JoinHasNoNewline(ws[1..]);
    }
  }

  lemma {:induction false} WordLineIsLine(ws: seq<string>)
    requires ws != [] && AllWords(ws)
    ensures IsLine(Join(ws, " ")) && IsTrimmed(Join(ws, " ")) && Join(ws, " ") != []
  {
    JoinHasNoNewline(ws);
    JoinIsTrimmed(ws);
  }

  lemma {:induction false} WordsOfEnd()
    ensures |Words("end")| == 1
  {
    var w := "end";
    assert IsWord(w);
    hide Words, IsWord;
    WordsOfOne(w);
  }

  /** A printed keyed line reaches the dispatch with its words intact. */
  lemma {:induction false} ParsePrinted(p: Progress, ws: seq<string>)
    requires |ws| >= 2 && AllWords(ws) && !p.ended
    ensures ParseLine(p, Join(ws, " ")) == Keyed(p, ws[0], ws[1..])
  {
    WordsOfEnd();
    hide Join, Words, Trim, TrimStart, TrimEnd, Keyed, AllWords, IsTrimmed, IsLine;
    var line := Join(ws, " ");
    WordLineIsLine(ws);
    TrimOfTrimmed(line);
    WordsOfJoin(ws);
  }

  // ----- fields -----

  predicate Printed(pairs: seq<(string, string)>, allowed: seq<string>) {
    forall i :: 0 <= i < |pairs| ==> pairs[i].0 in allowed && IsKey(pairs[i].0) && NoWhitespace(pairs[i].1)
  }

  predicate IsKey(k: string) {
    IsWord(k) && '=' !in k
  }

  lemma {:induction false} CollectField(key: string, value: string, rest: seq<string>, allowed: seq<string>, acc: map<string, string>)
    requires '=' !in key && key in allowed
    ensures Collect([key + "=" + value] + rest, allowed, acc) == Collect(rest, allowed, acc[key := value])
  {
    var part := key + "=" + value;
    assert part == key + ['='] + value;
    SplitOnceOfJoin(key, '=', value);
    hide SplitOnce;
    assert ([part] + rest)[1..] == rest;
  }

  function Inserted(pairs: seq<(string, string)>, acc: map<string, string>): map<string, string>
    decreases |pairs|
  {
    if pairs == [] then acc else Inserted(pairs[1..], acc[pairs[0].0 := pairs[0].1])
  }

  /** The field loop recovers every printed pair, Base64 padding and `=` inside values included. */
  lemma {:induction false} CollectPairs(pairs: seq<(string, string)>, allowed: seq<string>, acc: map<string, string>)
    requires Printed(pairs, allowed)
    ensures Collect(FieldWords(pairs), allowed, acc) == Ok(Inserted(pairs, acc))
    decreases |pairs|
  {
    hide IsWord, NoWhitespace, Collect;
    if pairs == [] {
      CollectNone(allowed, acc);
    } else {
      assert IsKey(pairs[0].0);
      assert FieldWords(pairs) == [pairs[0].0 + "=" + pairs[0].1] + FieldWords(pairs[1..]);
      hide FieldWords;
      CollectField(pairs[0].0, pairs[0].1, FieldWords(pairs[1..]), allowed, acc);
      CollectPairs(pairs[1..], allowed, acc[pairs[0].0 := pairs[0].1]);
    }
  }

  lemma {:induction false} CollectNone(allowed: seq<string>, acc: map<string, string>)
    ensures Collect([], allowed, acc) == Ok(acc)
  {}

  /** With distinct keys nothing is overwritten. */
  lemma {:induction false} InsertedAt(pairs: seq<(string, string)>, acc: map<string, string>, key: string, value: string)
    requires forall i, j :: 0 <= i < j < |pairs| ==> pairs[i].0 != pairs[j].0
    requires (key, value) in pairs
             || (key in acc && acc[key] == value && forall i :: 0 <= i < |pairs| ==> pairs[i].0 != key)
    ensures key in Inserted(pairs, acc) && Inserted(pairs, acc)[key] == value
    decreases |pairs|
  {
    if pairs != [] {
      InsertedAt(pairs[1..], acc[pairs[0].0 := pairs[0].1], key, value);
    }
  }

  lemma {:induction false} DecodePrinted(fields: map<string, string>, name: string, payload: string)
    requires name in fields && fields[name] == Encoded(payload)
    ensures DecodeField(fields, name) == Ok(payload)
  {
    Base64.DecodeOfEncode(Utf8.Encode(payload));
    Utf8.DecodeOfEncode(payload);
    hide Base64.Decode, Base64.Encode, Utf8.Decode, Utf8.Encode;
  }

  lemma {:induction false} EncodedIsWord(payload: string)
    ensures NoWhitespace(Encoded(payload))
  {
    Base64.EncodedIsWord(Utf8.Encode(payload));
  }

  lemma {:induction false} FieldWord(key: string, value: string)
    requires key != [] && NoWhitespace(key) && NoWhitespace(value)
    ensures IsWord(key + "=" + value)
  {
    var w := key + "=" + value;
    assert forall i :: 0 <= i < |w| ==>
      w[i] == if i < |key| then key[i] else if i == |key| then '=' else value[i - |key| - 1];
  }

  lemma {:induction false} FieldWordsAreWords(keyword: string, pairs: seq<(string, string)>, allowed: seq<string>)
    requires IsWord(keyword) && Printed(pairs, allowed)
    ensures AllWords([keyword] + FieldWords(pairs))
    decreases |pairs|
  {
    if pairs != [] {
      FieldWord(pairs[0].0, pairs[0].1);
      FieldWordsAreWords(keyword, pairs[1..], allowed);
      hide IsWord, NoWhitespace;
      var ws, ws' := [keyword] + FieldWords(pairs), [keyword] + FieldWords(pairs[1..]);
      assert forall i :: 2 <= i < |ws| ==> ws[i] == ws'[i - 1];
    }
  }

  // ----- one printed line at a time -----

  lemma {:induction false} ParseSchemaLine(p: Progress)
    requires !p.ended
    ensures ParseLine(p, Join(["schema", WIRE_SCHEMA], " ")) == Ok(p.(schemaSeen := true))
  {
    var ws := ["schema", WIRE_SCHEMA];
    assert AllWords(ws);
    ParsePrinted(p, ws);
    hide ParseLine, Join, AllWords;
    assert ws[1..] == [WIRE_SCHEMA];
  }

  lemma {:induction false} NodePairsPrinted(n: Node)
    requires NoWhitespace(n.id)
    ensures Printed(NodePairs(n), NODE_FIELDS)
  {
    EncodedIsWord(n.info);
    EncodedIsWord(n.ctl);
    EncodedIsWord(n.lease);
    EncodedIsWord(n.status);
    hide Encoded;
    assert IsKey("id") && IsKey("info") && IsKey("ctl") && IsKey("lease") && IsKey("status");
    hide IsKey, NoWhitespace;
    var s := NODE_FIELDS;
    assert s[0] == "id" && s[1] == "info" && s[2] == "ctl" && s[3] == "lease" && s[4] == "status";
  }

  lemma {:induction false} NodeFields(n: Node)
    ensures var m := Inserted(NodePairs(n), map[]);
            && "id" in m && m["id"] == n.id
            && "info" in m && m["info"] == Encoded(n.info)
            && "ctl" in m && m["ctl"] == Encoded(n.ctl)
            && "lease" in m && m["lease"] == Encoded(n.lease)
            && "status" in m && m["status"] == Encoded(n.status)
  {
    hide Encoded, Inserted;
    var ps := NodePairs(n);
    InsertedAt(ps, map[], ps[0].0, ps[0].1);
    InsertedAt(ps, map[], ps[1].0, ps[1].1);
    InsertedAt(ps, map[], ps[2].0, ps[2].1);
    InsertedAt(ps, map[], ps[3].0, ps[3].1);
    InsertedAt(ps, map[], ps[4].0, ps[4].1);
  }

  lemma {:induction false} ParseNodeLine(p: Progress, n: Node)
    requires !p.ended && NoWhitespace(n.id)
    ensures ParseLine(p, Join(NodeWords(n), " ")) == Ok(p.(nodes := p.nodes + [n]))
  {
    var ps := NodePairs(n);
    NodePairsPrinted(n);
    assert IsWord("node");
    FieldWordsAreWords("node", ps, NODE_FIELDS);
    hide AllWords, IsWord, Printed, NoWhitespace, Encoded;
    ParsePrinted(p, NodeWords(n));
    CollectPairs(ps, NODE_FIELDS, map[]);
    hide ParseLine, Join, FieldWords, Collect;
    assert NodeWords(n)[1..] == FieldWords(ps);
    NodeFields(n);
    hide Inserted, NodePairs;
    var m := Inserted(ps, map[]);
    DecodePrinted(m, "info", n.info);
    DecodePrinted(m, "ctl", n.ctl);
    DecodePrinted(m, "lease", n.lease);
    DecodePrinted(m, "status", n.status);
    hide DecodeField;
    assert NodeOf(m) == Ok(n);
  }

  lemma {:induction false} ModelPairsPrinted(m: Manifest)
    requires NoWhitespace(m.id)
    ensures Printed(ModelPairs(m), MODEL_FIELDS)
  {
    EncodedIsWord(m.toml);
    hide Encoded;
    assert IsKey("id") && IsKey("manifest");
    hide IsKey, NoWhitespace;
    assert MODEL_FIELDS[0] == "id" && MODEL_FIELDS[1] == "manifest";
  }

  lemma {:induction false} ModelFields(m: Manifest)
    ensures var fields := Inserted(ModelPairs(m), map[]);
            && "id" in fields && fields["id"] == m.id
            && "manifest" in fields && fields["manifest"] == Encoded(m.toml)
  {
    hide Encoded, Inserted;
    var ps := ModelPairs(m);
    InsertedAt(ps, map[], ps[0].0, ps[0].1);
    InsertedAt(ps, map[], ps[1].0, ps[1].1);
  }

  lemma {:induction false} ParseModelLine(p: Progress, m: Manifest)
    requires !p.ended && NoWhitespace(m.id)
    ensures ParseLine(p, Join(ModelWords(m), " ")) == Ok(p.(models := p.models + [m]))
  {
    var ps := ModelPairs(m);
    ModelPairsPrinted(m);
    assert IsWord("model");
    FieldWordsAreWords("model", ps, MODEL_FIELDS);
    hide AllWords, IsWord, Printed, NoWhitespace, Encoded;
    ParsePrinted(p, ModelWords(m));
    CollectPairs(ps, MODEL_FIELDS, map[]);
    hide ParseLine, Join, FieldWords, Collect;
    assert ModelWords(m)[1..] == FieldWords(ps);
    ModelFields(m);
    hide Inserted, ModelPairs;
    DecodePrinted(Inserted(ps, map[]), "manifest", m.toml);
    hide DecodeField;
    assert ModelOf(Inserted(ps, map[])) == Ok(m);
  }

  lemma {:induction false} Dispatch(p: Progress, fields: map<string, string>, parts: seq<string>)
    ensures Collect(parts, ACTIVE_FIELDS, map[]) == Ok(fields) && "id" in fields ==>
              Keyed(p, "active", parts) == Ok(p.(active := Some(fields["id"])))
    ensures Collect(parts, TELEMETRY_FIELDS, map[]) == Ok(fields) && SchemaOf(fields).Ok? ==>
              Keyed(p, "telemetry", parts) == Ok(p.(schema := Some(SchemaOf(fields).value)))
  {
    hide Collect, SchemaOf;
  }

  lemma {:induction false} ParseActiveLine(p: Progress, id: string)
    requires !p.ended && NoWhitespace(id)
    ensures ParseLine(p, Join(ActiveWords(id), " ")) == Ok(p.(active := Some(id)))
  {
    var ps := [("id", id)];
    assert IsKey("id") && IsWord("active") && ACTIVE_FIELDS[0] == "id";
    hide IsKey, IsWord, NoWhitespace;
    assert Printed(ps, ACTIVE_FIELDS);
    FieldWordsAreWords("active", ps, ACTIVE_FIELDS);
    hide AllWords, Printed;
    ParsePrinted(p, ActiveWords(id));
    CollectPairs(ps, ACTIVE_FIELDS, map[]);
    InsertedAt(ps, map[], ps[0].0, ps[0].1);
    hide ParseLine, Join, FieldWords, Collect, Inserted, Keyed;
    assert ActiveWords(id)[1..] == FieldWords(ps);
    Dispatch(p, Inserted(ps, map[]), FieldWords(ps));
  }

  lemma {:induction false} ParseTelemetryLine(p: Progress, schema: Schema)
    requires !p.ended && schema.version != [] && schema.maxRecordBytes > 0
    ensures ParseLine(p, Join(TelemetryWords(schema), " ")) == Ok(p.(schema := Some(schema)))
  {
    hide Descriptor;
    var ps := [("schema", Encoded(Descriptor(schema)))];
    EncodedIsWord(Descriptor(schema));
    assert IsKey("schema") && IsWord("telemetry") && TELEMETRY_FIELDS[0] == "schema";
    hide IsKey, IsWord, NoWhitespace, Encoded;
    assert Printed(ps, TELEMETRY_FIELDS);
    FieldWordsAreWords("telemetry", ps, TELEMETRY_FIELDS);
    hide AllWords, Printed;
    ParsePrinted(p, TelemetryWords(schema));
    CollectPairs(ps, TELEMETRY_FIELDS, map[]);
    InsertedAt(ps, map[], ps[0].0, ps[0].1);
    hide ParseLine, Join, FieldWords, Collect, Inserted, Keyed;
    assert TelemetryWords(schema)[1..] == FieldWords(ps);
    DecodePrinted(Inserted(ps, map[]), "schema", Descriptor(schema));
    SchemaRoundTrip(schema);
    hide DecodeField, ParseSchema;
    assert SchemaOf(Inserted(ps, map[])) == Ok(schema);
    Dispatch(p, Inserted(ps, map[]), FieldWords(ps));
  }

  lemma {:induction false} ParseEndLine(p: Progress)
    requires !p.ended
    ensures ParseLine(p, "end") == Ok(p.(ended := true))
  {
    var e := "end";
    assert IsTrimmed(e);
    hide IsTrimmed, Trim, TrimStart, TrimEnd;
    TrimOfTrimmed(e);
  }

  // ----- whole payloads -----

  lemma {:induction false} NodeLinesCons(nodes: seq<Node>, rest: seq<string>)
    requires nodes != []
    ensures NodeLines(nodes) + rest == [Join(NodeWords(nodes[0]), " ")] + (NodeLines(nodes[1..]) + rest)
  {
    hide Join, NodeWords;
  }

  lemma {:induction false} ParseNodes(p: Progress, nodes: seq<Node>, rest: seq<string>)
    requires !p.ended && forall i :: 0 <= i < |nodes| ==> NoWhitespace(nodes[i].id)
    ensures ParseLines(NodeLines(nodes) + rest, p) == ParseLines(rest, p.(nodes := p.nodes + nodes))
    decreases |nodes|
  {
    hide ParseLine, ParseLines, NoWhitespace, Join, NodeWords, NodeLines;
    if nodes == [] {
      EmptyPrints();
      assert NodeLines(nodes) + rest == rest && p.nodes + nodes == p.nodes;
    } else {
      var line, after := Join(NodeWords(nodes[0]), " "), NodeLines(nodes[1..]) + rest;
      NodeLinesCons(nodes, rest);
      var p' := p.(nodes := p.nodes + [nodes[0]]);
      ParseNodeLine(p, nodes[0]);
      ParseCons(line, after, p, p');
      ParseNodes(p', nodes[1..], rest);
      assert p'.nodes + nodes[1..] == p.nodes + nodes;
    }
  }

  lemma {:induction false} ModelLinesCons(models: seq<Manifest>, rest: seq<string>)
    requires models != []
    ensures ModelLines(models) + rest == [Join(ModelWords(models[0]), " ")] + (ModelLines(models[1..]) + rest)
  {
    hide Join, ModelWords;
  }

  lemma {:induction false} ParseModels(p: Progress, models: seq<Manifest>, rest: seq<string>)
    requires !p.ended && forall i :: 0 <= i < |models| ==> NoWhitespace(models[i].id)
    ensures ParseLines(ModelLines(models) + rest, p) == ParseLines(rest, p.(models := p.models + models))
    decreases |models|
  {
    hide ParseLine, ParseLines, NoWhitespace, Join, ModelWords, ModelLines;
    if models == [] {
      EmptyPrints();
      assert ModelLines(models) + rest == rest && p.models + models == p.models;
    } else {
      var line, after := Join(ModelWords(models[0]), " "), ModelLines(models[1..]) + rest;
      ModelLinesCons(models, rest);
      var p' := p.(models := p.models + [models[0]]);
      ParseModelLine(p, models[0]);
      ParseCons(line, after, p, p');
      ParseModels(p', models[1..], rest);
      assert p'.models + models[1..] == p.models + models;
    }
  }

  lemma {:induction false} ParseCons(line: string, rest: seq<string>, p: Progress, next: Progress)
    requires ParseLine(p, line) == Ok(next)
    ensures ParseLines([line] + rest, p) == ParseLines(rest, next)
  {
    hide ParseLine;
    assert ([line] + rest)[1..] == rest;
  }

  lemma {:induction false} ParseTail(p: Progress, s: Snapshot)
    requires !p.ended && Printable(s)
    ensures ParseLines(TailLines(s), p)
         == Ok(p.(active := Some(s.models.active), schema := Some(s.schema), ended := true))
  {
    var p1 := p.(active := Some(s.models.active));
    var p2 := p1.(schema := Some(s.schema));
    var p3 := p2.(ended := true);
    hide ParseLine, Join, ActiveWords, TelemetryWords, NoWhitespace;
    ParseActiveLine(p, s.models.active);
    ParseTelemetryLine(p1, s.schema);
    ParseEndLine(p2);
    var a, t := Join(ActiveWords(s.models.active), " "), Join(TelemetryWords(s.schema), " ");
    ParseCons("end", [], p2, p3);
    ParseCons(t, ["end"], p1, p2);
    ParseCons(a, [t, "end"], p, p1);
    assert TailLines(s) == [a] + [t, "end"] && [t, "end"] == [t] + ["end"] && ["end"] == ["end"] + [];
  }

  lemma {:induction false} ParseWireLines(s: Snapshot)
    requires Printable(s)
    ensures ParseLines(WireLines(s), START)
         == Ok(Progress(true, s.nodes, s.models.available, Some(s.models.active), Some(s.schema), true))
  {
    hide ParseLine, Join, NodeLines, ModelLines, TailLines, ParseLines, NoWhitespace;
    var p1 := START.(schemaSeen := true);
    var p2 := p1.(nodes := p1.nodes + s.nodes);
    var p3 := p2.(models := p2.models + s.models.available);
    var tail := ModelLines(s.models.available) + TailLines(s);
    ParseSchemaLine(START);
    ParseCons(Join(["schema", WIRE_SCHEMA], " "), NodeLines(s.nodes) + tail, START, p1);
    ParseNodes(p1, s.nodes, tail);
    ParseModels(p2, s.models.available, TailLines(s));
    ParseTail(p3, s);
    assert p2.nodes == s.nodes && p3.models == s.models.available;
  }

  predicate AllLines(lines: seq<string>) {
    forall i :: 0 <= i < |lines| ==> IsLine(lines[i])
  }

  lemma {:induction false} AllLinesConcat(a: seq<string>, b: seq<string>)
    requires AllLines(a) && AllLines(b)
    ensures AllLines(a + b)
  {
    hide IsLine;
  }

  lemma {:induction false} LinesOfUnlines(lines: seq<string>)
    requires AllLines(lines)
    ensures Lines(Unlines(lines)) == lines
    decreases |lines|
  {
    hide IsLine;
    if lines != [] {
      LinesOfUnlines(lines[1..]);
      LinesStep(lines[0], Unlines(lines[1..]));
      hide Lines;
      assert [lines[0]] + lines[1..] == lines;
    }
  }

  lemma {:induction false} NodeLinesAreLines(nodes: seq<Node>)
    requires forall i :: 0 <= i < |nodes| ==> NoWhitespace(nodes[i].id)
    ensures AllLines(NodeLines(nodes))
    decreases |nodes|
  {
    if nodes != [] {
      NodePairsPrinted(nodes[0]);
      assert IsWord("node");
      hide NoWhitespace, Printed, AllWords, IsWord, IsLine, Join;
      FieldWordsAreWords("node", NodePairs(nodes[0]), NODE_FIELDS);
      WordLineIsLine(NodeWords(nodes[0]));
      NodeLinesAreLines(nodes[1..]);
    }
  }

  lemma {:induction false} ModelLinesAreLines(models: seq<Manifest>)
    requires forall i :: 0 <= i < |models| ==> NoWhitespace(models[i].id)
    ensures AllLines(ModelLines(models))
    decreases |models|
  {
    hide NoWhitespace, IsLine, Join, ModelWords;
    if models != [] {
      ModelLineIsLine(models[0]);
      ModelLinesAreLines(models[1..]);
    }
  }

  lemma {:induction false} ModelLineIsLine(m: Manifest)
    requires NoWhitespace(m.id)
    ensures IsLine(Join(ModelWords(m), " "))
  {
    var ps := ModelPairs(m);
    EncodedIsWord(m.toml);
    assert IsKey("id") && IsKey("manifest") && IsWord("model");
    assert MODEL_FIELDS[0] == "id" && MODEL_FIELDS[1] == "manifest";
    hide NoWhitespace, AllWords, IsWord, IsKey, IsLine, Join, Encoded;
    assert Printed(ps, MODEL_FIELDS);
    FieldWordsAreWords("model", ps, MODEL_FIELDS);
    WordLineIsLine(ModelWords(m));
  }

  lemma {:induction false} KeyedLineIsLine(keyword: string, key: string, value: string)
    requires IsWord(keyword) && IsKey(key) && NoWhitespace(value)
    ensures IsLine(Join([keyword] + FieldWords([(key, value)]), " "))
  {
    var ps := [(key, value)];
    assert Printed(ps, [key]);
    hide NoWhitespace, AllWords, IsWord, IsKey, IsLine, Join;
    FieldWordsAreWords(keyword, ps, [key]);
    WordLineIsLine([keyword] + FieldWords(ps));
  }

  lemma {:induction false} FixedWords()
    ensures IsWord("active") && IsWord("telemetry") && IsWord("schema") && IsWord(WIRE_SCHEMA)
    ensures IsKey("id") && IsKey("schema")
    ensures AllLines(["end"])
  {
    assert IsLine("end");
  }

  lemma {:induction false} TailLinesAreLines(s: Snapshot)
    requires Printable(s)
    ensures AllLines(TailLines(s))
  {
    hide IsWord, IsKey, NoWhitespace, AllLines;
    FixedWords();
    EncodedIsWord(Descriptor(s.schema));
    hide IsLine, Join, Encoded, Descriptor, FieldWords;
    var a, t := Join(ActiveWords(s.models.active), " "), Join(TelemetryWords(s.schema), " ");
    KeyedLineIsLine("active", "id", s.models.active);
    KeyedLineIsLine("telemetry", "schema", Encoded(Descriptor(s.schema)));
    OneLine(a);
    OneLine(t);
    AllLinesConcat([t], ["end"]);
    AllLinesConcat([a], [t] + ["end"]);
    assert TailLines(s) == [a] + ([t] + ["end"]);
  }

  lemma {:induction false} OneLine(line: string)
    requires IsLine(line)
    ensures AllLines([line])
  {}

  lemma {:induction false} WireLinesAreLines(s: Snapshot)
    requires Printable(s)
    ensures AllLines(WireLines(s))
  {
    hide IsWord, IsKey, NoWhitespace, IsLine, AllLines, Join, NodeLines, ModelLines, TailLines;
    FixedWords();
    var ws := ["schema", WIRE_SCHEMA];
    assert AllWords(ws);
    WordLineIsLine(ws);
    OneLine(Join(ws, " "));
    NodeLinesAreLines(s.nodes);
    ModelLinesAreLines(s.models.available);
    TailLinesAreLines(s);
    AllLinesConcat(ModelLines(s.models.available), TailLines(s));
    AllLinesConcat(NodeLines(s.nodes), ModelLines(s.models.available) + TailLines(s));
    AllLinesConcat([Join(ws, " ")], NodeLines(s.nodes) + (ModelLines(s.models.available) + TailLines(s)));
  }

  /** Printing a snapshot and parsing the bytes gives the snapshot back. */
  lemma {:induction false} RoundTrip(s: Snapshot)
    requires Printable(s)
    ensures Parse(Wire(s)) == Ok(s)
  {
    hide Utf8.Decode, Utf8.Encode, Unlines, WireLines, ParseLines, Lines, NoWhitespace, AllLines;
    var lines := WireLines(s);
    Utf8.DecodeOfEncode(Unlines(lines));
    WireLinesAreLines(s);
    LinesOfUnlines(lines);
    ParseWireLines(s);
  }

  // ----- what the parser can produce -----

  /** What the parse loop keeps: only identifiers that are single words, only checked schemas. */
  predicate Checked(p: Progress) {
    && (forall i :: 0 <= i < |p.nodes| ==> NoWhitespace(p.nodes[i].id))
    && (forall i :: 0 <= i < |p.models| ==> NoWhitespace(p.models[i].id))
    && (p.active.Some? ==> NoWhitespace(p.active.value))
    && (p.schema.Some? ==> p.schema.value.version != [] && p.schema.value.maxRecordBytes > 0)
  }

  predicate WordValues(fields: map<string, string>) {
    forall k :: k in fields ==> NoWhitespace(fields[k])
  }

  lemma {:induction false} CollectKeepsWords(parts: seq<string>, allowed: seq<string>, acc: map<string, string>)
    requires AllWords(parts) && WordValues(acc)
    ensures Collect(parts, allowed, acc).Ok? ==> WordValues(Collect(parts, allowed, acc).value)
    decreases |parts|
  {
    if parts != [] {
      var split := SplitOnce(parts[0], '=');
      if split.Some? {
        var (key, value) := split.value;
        assert IsWord(parts[0]) && forall i :: 0 <= i < |value| ==> value[i] == parts[0][|key| + 1 + i];
        assert NoWhitespace(value);
        hide IsWord, NoWhitespace, SplitOnce;
        CollectKeepsWords(parts[1..], allowed, acc[key := value]);
      }
    }
  }

  lemma {:induction false} KeyedKeepsChecked(p: Progress, keyword: string, parts: seq<string>)
    requires Checked(p) && AllWords(parts)
    ensures Keyed(p, keyword, parts).Ok? ==> Checked(Keyed(p, keyword, parts).value)
  {
    hide Collect, NoWhitespace, AllWords, IsWord, ParseSchema, DecodeField;
    CollectKeepsWords(parts, NODE_FIELDS, map[]);
    CollectKeepsWords(parts, MODEL_FIELDS, map[]);
    CollectKeepsWords(parts, ACTIVE_FIELDS, map[]);
    CollectKeepsWords(parts, TELEMETRY_FIELDS, map[]);
  }

  lemma {:induction false} ParseLineKeepsChecked(p: Progress, raw: string)
    requires Checked(p)
    ensures ParseLine(p, raw).Ok? ==> Checked(ParseLine(p, raw).value)
  {
    hide Words, Trim, Keyed, NoWhitespace, IsWord;
    var words := Words(Trim(raw));
    WordsAreWords(Trim(raw));
    if words != [] {
      KeyedKeepsChecked(p, words[0], words[1..]);
    }
  }

  lemma {:induction false} ParseKeepsChecked(lines: seq<string>, p: Progress)
    requires Checked(p)
    ensures ParseLines(lines, p).Ok? ==> Checked(ParseLines(lines, p).value)
    decreases |lines|
  {
    hide ParseLine, Checked;
    if lines != [] {
      ParseLineKeepsChecked(p, lines[0]);
      var next := ParseLine(p, lines[0]);
      if next.Ok? {
        ParseKeepsChecked(lines[1..], next.value);
      }
    }
  }

  /** Every snapshot the parser accepts, from any bytes at all, is one that prints and parses back. */
  lemma {:induction false} AcceptedIsPrintable(bytes: seq<byte>)
    ensures Parse(bytes).Ok? ==> Printable(Parse(bytes).value) && Parse(Wire(Parse(bytes).value)) == Parse(bytes)
  {
    hide ParseLines, Lines, Utf8.Decode, Wire, NoWhitespace;
    if Parse(bytes).Ok? {
      assert Checked(START);
      ParseKeepsChecked(Lines(Utf8.Decode(bytes).value), START);
      RoundTrip(Parse(bytes).value);
    }
  }

  /** The round trip holds for exactly the printable snapshots. */
  lemma {:induction false} RoundTripIff(s: Snapshot)
    ensures Parse(Wire(s)) == Ok(s) <==> Printable(s)
  {
    if Printable(s) {
      RoundTrip(s);
    } else {
      AcceptedIsPrintable(Wire(s));
    }
  }
}
