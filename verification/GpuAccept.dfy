/**
 Which texts `parse_wire_snapshot` accepts, and as what: told line by line from what a line says, without the parser's
 maps and running state.
 */
module GpuAccept {
  import opened Outcome
  import opened Text
  import opened TelemetrySchema
  import opened GpuWire
  import Base64
  import Utf8

  // ----- what a line says -----

  /** `word` is `key=` and a value. */
  predicate HasKey(word: string, key: string) {
    key + "=" <= word
  }

  predicate IsField(word: string, keys: seq<string>) {
    exists i :: 0 <= i < |keys| && HasKey(word, keys[i])
  }

  predicate AreFields(words: seq<string>, keys: seq<string>) {
    forall i :: 0 <= i < |words| ==> IsField(words[i], keys)
  }

  /** The value of the last field with the key. */
  function LastValue(words: seq<string>, key: string): Option<string>
    decreases |words|
  {
    if words == [] then None
    else
      var last := words[|words| - 1];
      if HasKey(last, key) then Some(last[|key| + 1..]) else LastValue(words[..|words| - 1], key)
  }

  /** The last value of the key is the Base64 of the UTF-8 of `payload`. */
  predicate Carries(words: seq<string>, key: string, payload: string) {
    LastValue(words, key) == Some(Base64.Encode(Utf8.Encode(payload)))
  }

  datatype Item =
    | SchemaItem
    | NodeItem(node: Node)
    | ModelItem(model: Manifest)
    | ActiveItem(id: string)
    | TelemetryItem(schema: Schema)

  /** The words of a line say an item: fields in any order, of a repeated one the last. */
  ghost predicate Says(words: seq<string>, item: Item) {
    && words != []
    && var fields := words[1..];
       match item
       case SchemaItem => words == ["schema", "gpu-bridge-snapshot/v1"]
       case NodeItem(n) =>
         && words[0] == "node" && AreFields(fields, ["id", "info", "ctl", "lease", "status"])
         && LastValue(fields, "id") == Some(n.id)
         && Carries(fields, "info", n.info) && Carries(fields, "ctl", n.ctl)
         && Carries(fields, "lease", n.lease) && Carries(fields, "status", n.status)
       case ModelItem(m) =>
         && words[0] == "model" && AreFields(fields, ["id", "manifest"])
         && LastValue(fields, "id") == Some(m.id) && Carries(fields, "manifest", m.toml)
       case ActiveItem(id) =>
         words[0] == "active" && AreFields(fields, ["id"]) && LastValue(fields, "id") == Some(id)
       case TelemetryItem(schema) =>
         && words[0] == "telemetry" && AreFields(fields, ["schema"])
         && schema.version != "" && schema.maxRecordBytes > 0
         && exists json :: Carries(fields, "schema", json) && Gives(json, schema)
  }

  // ----- fields -----

  predicate AreKeys(keys: seq<string>) {
    forall i :: 0 <= i < |keys| ==> '=' !in keys[i]
  }

  /** A field splits at its key. */
  lemma {:induction false} FieldSplits(word: string, key: string)
    requires '=' !in key
    ensures HasKey(word, key) <==> SplitOnce(word, '=') == Some((key, if |word| > |key| then word[|key| + 1..] else ""))
    ensures SplitOnce(word, '=').Some? ==> (SplitOnce(word, '=').value.0 == key <==> HasKey(word, key))
  {
    if HasKey(word, key) {
      var value := word[|key| + 1..];
      assert word == key + ['='] + value;
      SplitOnceOfJoin(key, '=', value);
    }
  }

  lemma {:induction false} IsFieldIff(word: string, keys: seq<string>)
    requires AreKeys(keys)
    ensures IsField(word, keys) <==> SplitOnce(word, '=').Some? && SplitOnce(word, '=').value.0 in keys
  {
    hide HasKey, SplitOnce;
    forall i | 0 <= i < |keys| ensures SplitOnce(word, '=').Some? ==> (SplitOnce(word, '=').value.0 == keys[i] <==> HasKey(word, keys[i])) {
      FieldSplits(word, keys[i]);
    }
    if IsField(word, keys) {
      var i :| 0 <= i < |keys| && HasKey(word, keys[i]);
      FieldSplits(word, keys[i]);
    }
  }

  lemma {:induction false} LastValueCons(word: string, rest: seq<string>, key: string)
    ensures LastValue([word] + rest, key)
            == if LastValue(rest, key).Some? then LastValue(rest, key)
               else if HasKey(word, key) then Some(word[|key| + 1..]) else None
    decreases |rest|
  {
    var words := [word] + rest;
    if rest == [] {
      assert words[..0] == [] && words[|words| - 1] == word;
    } else {
      var n := |rest| - 1;
      assert words[..|words| - 1] == [word] + rest[..n] && words[|words| - 1] == rest[n];
      LastValueCons(word, rest[..n], key);
    }
  }

  lemma {:induction false} AreFieldsCons(word: string, rest: seq<string>, keys: seq<string>)
    ensures AreFields([word] + rest, keys) <==> IsField(word, keys) && AreFields(rest, keys)
  {
    hide IsField;
    var words := [word] + rest;
    assert words[0] == word && forall i :: 0 <= i < |rest| ==> words[i + 1] == rest[i];
  }

  lemma {:induction false} CollectStep(parts: seq<string>, allowed: seq<string>, acc: map<string, string>)
    requires parts != [] && AreKeys(allowed)
    ensures !IsField(parts[0], allowed) ==> Collect(parts, allowed, acc).Err?
    ensures IsField(parts[0], allowed) ==>
              SplitOnce(parts[0], '=').Some?
              && var (key, value) := SplitOnce(parts[0], '=').value;
                 key in allowed && Collect(parts, allowed, acc) == Collect(parts[1..], allowed, acc[key := value])
  {
    hide IsField, SplitOnce;
    IsFieldIff(parts[0], allowed);
  }

  /** The field loop accepts exactly fields with allowed keys, and holds the last value of each. */
  lemma {:induction false} CollectIs(parts: seq<string>, allowed: seq<string>, acc: map<string, string>, key: string)
    requires AreKeys(allowed) && '=' !in key
    ensures Collect(parts, allowed, acc).Ok? <==> AreFields(parts, allowed)
    ensures Collect(parts, allowed, acc).Ok? ==>
              var m, value := Collect(parts, allowed, acc).value, LastValue(parts, key);
              && (value.Some? ==> key in m && m[key] == value.value)
              && (value.None? ==> (key in m <==> key in acc) && (key in m ==> m[key] == acc[key]))
    decreases |parts|
  {
    hide IsField, SplitOnce, AreFields, HasKey;
    if parts == [] {
      NoFields(allowed);
    } else {
      var word, rest := parts[0], parts[1..];
      assert parts == [word] + rest;
      AreFieldsCons(word, rest, allowed);
      LastValueCons(word, rest, key);
      FieldSplits(word, key);
      CollectStep(parts, allowed, acc);
      hide Collect, LastValue;
      if IsField(word, allowed) {
        var (k, value) := SplitOnce(word, '=').value;
        CollectIs(rest, allowed, acc[k := value], key);
        if HasKey(word, key) {
          FieldLen(word, key);
        }
      }
    }
  }

  lemma {:induction false} FieldLen(word: string, key: string)
    requires HasKey(word, key)
    ensures |word| > |key|
  {}

  lemma {:induction false} NoFields(keys: seq<string>)
    ensures AreFields([], keys)
  {}

  /** The error of the field loop is that of the first word that is not a field. */
  lemma {:induction false} CollectErr(good: seq<string>, bad: string, rest: seq<string>, allowed: seq<string>, acc: map<string, string>)
    requires AreKeys(allowed) && AreFields(good, allowed) && !IsField(bad, allowed)
    ensures '=' !in bad ==> Collect(good + [bad] + rest, allowed, acc) == Err(MissingEquals(bad))
    ensures forall key, value :: '=' !in key && bad == key + "=" + value ==>
              Collect(good + [bad] + rest, allowed, acc) == Err(UnsupportedField(key))
    decreases |good|
  {
    hide IsField, SplitOnce, AreFields;
    var parts := good + [bad] + rest;
    if good == [] {
      assert parts[0] == bad;
      IsFieldIff(bad, allowed);
      forall key, value | '=' !in key && bad == key + "=" + value
        ensures Collect(parts, allowed, acc) == Err(UnsupportedField(key))
      {
        SplitOnceOfJoin(key, '=', value);
      }
    } else {
      assert good == [good[0]] + good[1..];
      AreFieldsCons(good[0], good[1..], allowed);
      assert parts[0] == good[0] && parts[1..] == good[1..] + [bad] + rest;
      CollectStep(parts, allowed, acc);
      hide Collect;
      var (key, value) := SplitOnce(good[0], '=').value;
      CollectErr(good[1..], bad, rest, allowed, acc[key := value]);
    }
  }

  lemma {:induction false} DecodeFieldIff(fields: map<string, string>, name: string, payload: string)
    ensures DecodeField(fields, name) == Ok(payload)
            <==> name in fields && fields[name] == Base64.Encode(Utf8.Encode(payload))
  {
    hide Base64.Encode, Utf8.Encode, Base64.Decode, Utf8.Decode;
    Base64.DecodeOfEncode(Utf8.Encode(payload));
    Utf8.DecodeOfEncode(payload);
  }

  /** The last values of a collected line. */
  lemma {:induction false} CollectedValue(parts: seq<string>, allowed: seq<string>, key: string)
    requires AreKeys(allowed) && '=' !in key && Collect(parts, allowed, map[]).Ok?
    ensures var m := Collect(parts, allowed, map[]).value;
            LastValue(parts, key) == if key in m then Some(m[key]) else None
  {
    hide Collect, LastValue, AreFields;
    CollectIs(parts, allowed, map[], key);
  }

  lemma {:induction false} CarriesIff(parts: seq<string>, allowed: seq<string>, key: string, payload: string)
    requires AreKeys(allowed) && '=' !in key && Collect(parts, allowed, map[]).Ok?
    ensures DecodeField(Collect(parts, allowed, map[]).value, key) == Ok(payload) <==> Carries(parts, key, payload)
  {
    hide Collect, LastValue, DecodeField, Base64.Encode, Utf8.Encode;
    CollectedValue(parts, allowed, key);
    DecodeFieldIff(Collect(parts, allowed, map[]).value, key, payload);
  }

  lemma {:induction false} KeysAre()
    ensures AreKeys(NODE_FIELDS) && AreKeys(MODEL_FIELDS) && AreKeys(ACTIVE_FIELDS) && AreKeys(TELEMETRY_FIELDS)
    ensures '=' !in "id" && '=' !in "info" && '=' !in "ctl" && '=' !in "lease" && '=' !in "status" && '=' !in "manifest" && '=' !in "schema"
  {}

  lemma {:induction false} NodeIff(parts: seq<string>, n: Node)
    requires Collect(parts, NODE_FIELDS, map[]).Ok?
    ensures NodeOf(Collect(parts, NODE_FIELDS, map[]).value) == Ok(n)
            <==> && LastValue(parts, "id") == Some(n.id)
                 && Carries(parts, "info", n.info) && Carries(parts, "ctl", n.ctl)
                 && Carries(parts, "lease", n.lease) && Carries(parts, "status", n.status)
  {
    hide Collect, LastValue, DecodeField, Carries, AreKeys;
    KeysAre();
    CollectedValue(parts, NODE_FIELDS, "id");
    CarriesIff(parts, NODE_FIELDS, "info", n.info);
    CarriesIff(parts, NODE_FIELDS, "ctl", n.ctl);
    CarriesIff(parts, NODE_FIELDS, "lease", n.lease);
    CarriesIff(parts, NODE_FIELDS, "status", n.status);
  }

  lemma {:induction false} ModelIff(parts: seq<string>, m: Manifest)
    requires Collect(parts, MODEL_FIELDS, map[]).Ok?
    ensures ModelOf(Collect(parts, MODEL_FIELDS, map[]).value) == Ok(m)
            <==> LastValue(parts, "id") == Some(m.id) && Carries(parts, "manifest", m.toml)
  {
    hide Collect, LastValue, DecodeField, Carries, AreKeys;
    KeysAre();
    CollectedValue(parts, MODEL_FIELDS, "id");
    CarriesIff(parts, MODEL_FIELDS, "manifest", m.toml);
  }

  lemma {:induction false} SchemaIff(parts: seq<string>, schema: Schema)
    requires Collect(parts, TELEMETRY_FIELDS, map[]).Ok?
    ensures SchemaOf(Collect(parts, TELEMETRY_FIELDS, map[]).value) == Ok(schema)
            <==> schema.version != "" && schema.maxRecordBytes > 0
                 && exists json :: Carries(parts, "schema", json) && Gives(json, schema)
  {
    hide Collect, LastValue, DecodeField, Carries, AreKeys, ParseSchema, Gives;
    KeysAre();
    var m := Collect(parts, TELEMETRY_FIELDS, map[]).value;
    if json :| Carries(parts, "schema", json) && Gives(json, schema) {
      CarriesIff(parts, TELEMETRY_FIELDS, "schema", json);
      ParseSchemaIff(json, schema);
    }
    if DecodeField(m, "schema").Ok? {
      var json := DecodeField(m, "schema").value;
      CarriesIff(parts, TELEMETRY_FIELDS, "schema", json);
      ParseSchemaIff(json, schema);
    }
  }

  // ----- lines -----

  /** What an item adds to what has been read. */
  function Add(p: Progress, item: Item): Progress {
    match item
    case SchemaItem => p.(schemaSeen := true)
    case NodeItem(n) => p.(nodes := p.nodes + [n])
    case ModelItem(m) => p.(models := p.models + [m])
    case ActiveItem(id) => p.(active := Some(id))
    case TelemetryItem(schema) => p.(schema := Some(schema))
  }

  lemma {:induction false} KeyedSays(p: Progress, words: seq<string>, item: Item)
    requires Says(words, item)
    ensures Keyed(p, words[0], words[1..]) == Ok(Add(p, item))
  {
    hide Collect, LastValue, AreKeys, Carries, AreFields, NodeOf, ModelOf, SchemaOf, Gives;
    var parts := words[1..];
    KeysAre();
    match item
    case SchemaItem =>
    case NodeItem(n) =>
      CollectIs(parts, NODE_FIELDS, map[], "id");
      NodeIff(parts, n);
    case ModelItem(m) =>
      CollectIs(parts, MODEL_FIELDS, map[], "id");
      ModelIff(parts, m);
    case ActiveItem(id) =>
      CollectIs(parts, ACTIVE_FIELDS, map[], "id");
      CollectedValue(parts, ACTIVE_FIELDS, "id");
    case TelemetryItem(schema) =>
      CollectIs(parts, TELEMETRY_FIELDS, map[], "schema");
      SchemaIff(parts, schema);
  }

  /** The item a keyed line was read as. */
  lemma {:induction false} KeyedOnlySays(p: Progress, words: seq<string>) returns (item: Item)
    requires words != [] && Keyed(p, words[0], words[1..]).Ok?
    ensures Says(words, item) && Keyed(p, words[0], words[1..]) == Ok(Add(p, item))
  {
    hide Collect, LastValue, AreKeys, Carries, AreFields, NodeOf, ModelOf, SchemaOf, Gives;
    var keyword, parts := words[0], words[1..];
    KeysAre();
    if keyword == "schema" {
      item := SchemaItem;
      assert words == [keyword] + parts;
    } else if keyword == "node" {
      var n := NodeOf(Collect(parts, NODE_FIELDS, map[]).value).value;
      CollectIs(parts, NODE_FIELDS, map[], "id");
      NodeIff(parts, n);
      item := NodeItem(n);
    } else if keyword == "model" {
      var m := ModelOf(Collect(parts, MODEL_FIELDS, map[]).value).value;
      CollectIs(parts, MODEL_FIELDS, map[], "id");
      ModelIff(parts, m);
      item := ModelItem(m);
    } else if keyword == "active" {
      CollectIs(parts, ACTIVE_FIELDS, map[], "id");
      CollectedValue(parts, ACTIVE_FIELDS, "id");
      item := ActiveItem(LastValue(parts, "id").value);
    } else {
      var schema := SchemaOf(Collect(parts, TELEMETRY_FIELDS, map[]).value).value;
      CollectIs(parts, TELEMETRY_FIELDS, map[], "schema");
      SchemaIff(parts, schema);
      item := TelemetryItem(schema);
    }
  }

  // ----- whole texts -----

  /** Lines that say these items, one each in order, but for blank ones; none of them ends the payload. */
  ghost predicate Reads(lines: seq<string>, items: seq<Item>)
    decreases |lines|
  {
    if lines == [] then items == []
    else if Trim(lines[0]) == "" then Reads(lines[1..], items)
    else
      && Trim(lines[0]) != "end"
      && items != [] && Says(Words(Trim(lines[0])), items[0]) && Reads(lines[1..], items[1..])
  }

  predicate AreBlank(lines: seq<string>) {
    forall i :: 0 <= i < |lines| ==> Trim(lines[i]) == ""
  }

  function Nodes(items: seq<Item>): seq<Node>
    decreases |items|
  {
    if items == [] then []
    else
      var before, last := Nodes(items[..|items| - 1]), items[|items| - 1];
      if last.NodeItem? then before + [last.node] else before
  }

  function Models(items: seq<Item>): seq<Manifest>
    decreases |items|
  {
    if items == [] then []
    else
      var before, last := Models(items[..|items| - 1]), items[|items| - 1];
      if last.ModelItem? then before + [last.model] else before
  }

  /** The last item of a kind. */
  function LastActive(items: seq<Item>): Option<string>
    decreases |items|
  {
    if items == [] then None
    else if items[|items| - 1].ActiveItem? then Some(items[|items| - 1].id)
    else LastActive(items[..|items| - 1])
  }

  function LastTelemetry(items: seq<Item>): Option<Schema>
    decreases |items|
  {
    if items == [] then None
    else if items[|items| - 1].TelemetryItem? then Some(items[|items| - 1].schema)
    else LastTelemetry(items[..|items| - 1])
  }

  /** The snapshot a payload's items make up. */
  predicate Yields(items: seq<Item>, s: Snapshot) {
    && SchemaItem in items
    && s.nodes == Nodes(items)
    && s.models.available == Models(items)
    && LastActive(items) == Some(s.models.active)
    && LastTelemetry(items) == Some(s.schema)
    && (Models(items) == [] || exists i :: 0 <= i < |Models(items)| && Models(items)[i].id == s.models.active)
  }

  function AddAll(p: Progress, items: seq<Item>): Progress
    decreases |items|
  {
    if items == [] then p else Add(AddAll(p, items[..|items| - 1]), items[|items| - 1])
  }

  lemma {:induction false} AddAllCons(p: Progress, item: Item, rest: seq<Item>)
    ensures AddAll(p, [item] + rest) == AddAll(Add(p, item), rest)
    decreases |rest|
  {
    hide Add;
    var items := [item] + rest;
    if rest == [] {
      assert items[..0] == [] && items[|items| - 1] == item;
      assert AddAll(p, items) == Add(AddAll(p, items[..0]), item);
    } else {
      var n := |rest| - 1;
      assert items[..|items| - 1] == [item] + rest[..n] && items[|items| - 1] == rest[n];
      AddAllCons(p, item, rest[..n]);
    }
  }

  /** What has been read is what the items say. */
  lemma {:induction false} AddAllIs(items: seq<Item>)
    ensures var p := AddAll(START, items);
            && (p.schemaSeen <==> SchemaItem in items) && !p.ended
            && p.nodes == Nodes(items) && p.models == Models(items)
            && p.active == LastActive(items) && p.schema == LastTelemetry(items)
    decreases |items|
  {
    if items != [] {
      var n := |items| - 1;
      AddAllIs(items[..n]);
      assert items == items[..n] + [items[n]];
    }
  }

  lemma {:induction false} ParseLineSays(p: Progress, raw: string, item: Item)
    requires !p.ended && Trim(raw) != "" && Trim(raw) != "end" && Says(Words(Trim(raw)), item)
    ensures ParseLine(p, raw) == Ok(Add(p, item))
  {
    hide Keyed, Trim, Words, Add;
    KeyedSays(p, Words(Trim(raw)), item);
    SaysSome(Words(Trim(raw)), item);
    hide Says;
  }

  lemma {:induction false} SaysSome(words: seq<string>, item: Item)
    requires Says(words, item)
    ensures words != []
  {}

  lemma {:induction false} ParseLinesCons(lines: seq<string>, p: Progress)
    requires lines != []
    ensures ParseLines(lines, p)
            == if ParseLine(p, lines[0]).Ok? then ParseLines(lines[1..], ParseLine(p, lines[0]).value)
               else Err(ParseLine(p, lines[0]).error)
  {
    hide ParseLine;
  }

  lemma {:induction false} ReadsParses(lines: seq<string>, items: seq<Item>, p: Progress, rest: seq<string>)
    requires !p.ended && Reads(lines, items)
    ensures ParseLines(lines + rest, p) == ParseLines(rest, AddAll(p, items))
    decreases |lines|
  {
    hide ParseLines, Says, Trim, Words, Keyed;
    if lines == [] {
      assert lines + rest == rest;
    } else {
      assert (lines + rest)[0] == lines[0] && (lines + rest)[1..] == lines[1..] + rest;
      ParseLinesCons(lines + rest, p);
      if Trim(lines[0]) == "" {
        ReadsParses(lines[1..], items, p, rest);
      } else {
        ParseLineSays(p, lines[0], items[0]);
        ReadsParses(lines[1..], items[1..], Add(p, items[0]), rest);
        AddAllCons(p, items[0], items[1..]);
        assert items == [items[0]] + items[1..];
      }
    }
  }

  lemma {:induction false} BlanksParse(lines: seq<string>, p: Progress)
    requires p.ended
    ensures ParseLines(lines, p) == Ok(p) <==> AreBlank(lines)
    ensures ParseLines(lines, p).Ok? ==> AreBlank(lines)
    decreases |lines|
  {
    hide Trim, Words, Keyed;
    if lines != [] {
      BlanksParse(lines[1..], p);
      assert AreBlank(lines) <==> Trim(lines[0]) == "" && AreBlank(lines[1..]) by {
        AreBlankCons(lines[0], lines[1..]);
        assert lines == [lines[0]] + lines[1..];
      }
    }
  }

  lemma {:induction false} AreBlankCons(line: string, rest: seq<string>)
    ensures AreBlank([line] + rest) <==> Trim(line) == "" && AreBlank(rest)
  {
    hide Trim;
    var all := [line] + rest;
    assert all[0] == line && forall i :: 0 <= i < |rest| ==> all[i + 1] == rest[i];
  }

  /** The lines of a payload: items, the end marker, then nothing but blanks. */
  ghost predicate Delivers(lines: seq<string>, s: Snapshot) {
    exists n: nat, items ::
      n < |lines| && Reads(lines[..n], items) && Trim(lines[n]) == "end" && AreBlank(lines[n + 1..]) && Yields(items, s)
  }

  lemma {:induction false} DeliversParses(lines: seq<string>, s: Snapshot, n: nat, items: seq<Item>)
    requires n < |lines| && Reads(lines[..n], items) && Trim(lines[n]) == "end" && AreBlank(lines[n + 1..]) && Yields(items, s)
    ensures ParseLines(lines, START).Ok? && Finish(ParseLines(lines, START).value) == Ok(s)
  {
    hide ParseLines, Reads, Trim, AreBlank, Keyed, Words;
    var p := AddAll(START, items);
    assert lines == lines[..n] + lines[n..];
    ReadsParses(lines[..n], items, START, lines[n..]);
    AddAllIs(items);
    hide AddAll, Nodes, Models, LastActive, LastTelemetry;
    ParseLinesCons(lines[n..], p);
    assert lines[n..][0] == lines[n] && lines[n..][1..] == lines[n + 1..];
    EndParses(p, lines[n]);
    BlanksParse(lines[n + 1..], p.(ended := true));
  }

  lemma {:induction false} EndParses(p: Progress, raw: string)
    requires !p.ended && Trim(raw) == "end"
    ensures ParseLine(p, raw) == Ok(p.(ended := true))
  {
    hide Trim, Words, Keyed;
  }

  /** How far a run of lines that parses gets: to its end without a marker, or to the marker. */
  lemma {:induction false} ParsedReads(lines: seq<string>, p: Progress) returns (n: nat, items: seq<Item>)
    requires !p.ended && ParseLines(lines, p).Ok?
    ensures n <= |lines| && Reads(lines[..n], items)
    ensures n == |lines| ==> ParseLines(lines, p) == Ok(AddAll(p, items))
    ensures n < |lines| ==> && Trim(lines[n]) == "end" && AreBlank(lines[n + 1..])
                            && ParseLines(lines, p) == Ok(AddAll(p, items).(ended := true))
    decreases |lines|
  {
    hide Trim, Words, Keyed, Says, ParseLines, AreBlank;
    if lines == [] {
      n, items := 0, [];
      assert lines[..0] == [];
      ParseLinesNone(p);
    } else {
      ParseLinesCons(lines, p);
      if Trim(lines[0]) == "end" {
        n, items := 0, [];
        assert lines[..0] == [];
        EndParses(p, lines[0]);
        BlanksParse(lines[1..], p.(ended := true));
      } else if Trim(lines[0]) == "" {
        n, items := ParsedReads(lines[1..], p);
        assert lines[..n + 1][1..] == lines[1..][..n];
        n := n + 1;
      } else {
        var item := LineOnlySays(p, lines[0]);
        var rest;
        n, rest := ParsedReads(lines[1..], Add(p, item));
        items := [item] + rest;
        AddAllCons(p, item, rest);
        assert lines[..n + 1][1..] == lines[1..][..n] && items[1..] == rest;
        n := n + 1;
      }
    }
  }

  lemma {:induction false} ParseLinesNone(p: Progress)
    ensures ParseLines([], p) == Ok(p)
  {}

  lemma {:induction false} LineOnlySays(p: Progress, raw: string) returns (item: Item)
    requires !p.ended && Trim(raw) != "" && Trim(raw) != "end" && ParseLine(p, raw).Ok?
    ensures Says(Words(Trim(raw)), item) && ParseLine(p, raw) == Ok(Add(p, item))
  {
    hide Keyed, Trim, Words, Says, Add;
    item := KeyedOnlySays(p, Words(Trim(raw)));
  }

  /**
   The parser accepts exactly the payloads that are UTF-8 text, say items line by line up to an end marker, have
   nothing but blanks after it, and whose items yield a snapshot; and it returns that snapshot.
   */
  lemma {:induction false} ParseIff(bytes: seq<byte>, s: Snapshot)
    ensures Parse(bytes) == Ok(s) <==> exists text :: Utf8.Encode(text) == bytes && Delivers(Lines(text), s)
  {
    hide ParseLines, Finish, Utf8.Encode, Lines, Delivers, Utf8.Decode;
    if Parse(bytes) == Ok(s) {
      var text := Utf8.Decode(bytes).value;
      FinishedDelivers(Lines(text), s);
      assert Utf8.Encode(text) == bytes;
    }
    if text :| Utf8.Encode(text) == bytes && Delivers(Lines(text), s) {
      Utf8.DecodeOfEncode(text);
      DeliveredFinishes(Lines(text), s);
    }
  }

  lemma {:induction false} DeliveredFinishes(lines: seq<string>, s: Snapshot)
    requires Delivers(lines, s)
    ensures ParseLines(lines, START).Ok? && Finish(ParseLines(lines, START).value) == Ok(s)
  {
    hide ParseLines, Finish, Reads, Trim, AreBlank, Yields;
    var n: nat, items :|
      n < |lines| && Reads(lines[..n], items) && Trim(lines[n]) == "end" && AreBlank(lines[n + 1..]) && Yields(items, s);
    DeliversParses(lines, s, n, items);
  }

  lemma {:induction false} FinishedDelivers(lines: seq<string>, s: Snapshot)
    requires ParseLines(lines, START).Ok? && Finish(ParseLines(lines, START).value) == Ok(s)
    ensures Delivers(lines, s)
  {
    hide ParseLines, Reads, Trim, AreBlank;
    var n, items := ParsedReads(lines, START);
    AddAllIs(items);
    hide AddAll, Nodes, Models, LastActive, LastTelemetry;
    assert n < |lines|;
    assert Yields(items, s);
  }

  // ----- what is refused, and why -----

  /** A payload whose lines all read, but which does not make up a snapshot, is refused for the first thing it lacks. */
  lemma {:induction false} ClosingErrors(lines: seq<string>, n: nat, items: seq<Item>)
    requires n < |lines| && Reads(lines[..n], items) && Trim(lines[n]) == "end" && AreBlank(lines[n + 1..])
    ensures ParseLines(lines, START).Ok?
    ensures var r := Finish(ParseLines(lines, START).value);
            if SchemaItem !in items then r == Err(MissingSchemaLine)
            else if LastActive(items).None? then r == Err(MissingActive)
            else if Models(items) != [] && (forall i :: 0 <= i < |Models(items)| ==> Models(items)[i].id != LastActive(items).value)
            then r == Err(ActiveNotListed)
            else if LastTelemetry(items).None? then r == Err(MissingTelemetry)
            else r.Ok?
  {
    hide ParseLines, Reads, Trim, AreBlank, Keyed, Words;
    var p := AddAll(START, items);
    assert lines == lines[..n] + lines[n..];
    ReadsParses(lines[..n], items, START, lines[n..]);
    AddAllIs(items);
    hide AddAll, Nodes, Models, LastActive, LastTelemetry;
    ParseLinesCons(lines[n..], p);
    assert lines[n..][0] == lines[n] && lines[n..][1..] == lines[n + 1..];
    EndParses(p, lines[n]);
    BlanksParse(lines[n + 1..], p.(ended := true));
  }

  /** Without the marker it is refused for that, or for the schema line if that is missing too. */
  lemma {:induction false} NoEndError(lines: seq<string>, items: seq<Item>)
    requires Reads(lines, items)
    ensures ParseLines(lines, START).Ok?
    ensures Finish(ParseLines(lines, START).value) == Err(if SchemaItem in items then MissingEnd else MissingSchemaLine)
  {
    hide ParseLines, Reads, Trim, Keyed, Words;
    assert lines + [] == lines;
    ReadsParses(lines, items, START, []);
    ParseLinesNone(AddAll(START, items));
    AddAllIs(items);
  }

  /** Anything but blanks after the marker is refused as such. */
  lemma {:induction false} DataAfterEndError(lines: seq<string>, n: nat, items: seq<Item>)
    requires n < |lines| && Reads(lines[..n], items) && Trim(lines[n]) == "end" && !AreBlank(lines[n + 1..])
    ensures ParseLines(lines, START) == Err(DataAfterEnd)
  {
    hide ParseLines, Reads, Trim, AreBlank, Keyed, Words;
    var p := AddAll(START, items);
    assert lines == lines[..n] + lines[n..];
    ReadsParses(lines[..n], items, START, lines[n..]);
    AddAllIs(items);
    hide AddAll;
    ParseLinesCons(lines[n..], p);
    assert lines[n..][0] == lines[n] && lines[n..][1..] == lines[n + 1..];
    EndParses(p, lines[n]);
    AfterEnd(lines[n + 1..], p.(ended := true));
  }

  lemma {:induction false} AfterEnd(lines: seq<string>, p: Progress)
    requires p.ended && !AreBlank(lines)
    ensures ParseLines(lines, p) == Err(DataAfterEnd)
    decreases |lines|
  {
    hide Trim, Words, Keyed, AreBlank, ParseLines;
    if lines == [] {
      BlanksParse(lines, p);
      ParseLinesNone(p);
    } else {
      AreBlankCons(lines[0], lines[1..]);
      assert lines == [lines[0]] + lines[1..];
      ParseLinesCons(lines, p);
      if Trim(lines[0]) == "" {
        AfterEnd(lines[1..], p);
      }
    }
  }

  /** A payload is refused with the error of the first line that does not read. */
  lemma {:induction false} FirstBadLine(good: seq<string>, bad: string, rest: seq<string>, items: seq<Item>)
    requires Reads(good, items) && ParseLine(AddAll(START, items), bad).Err?
    ensures ParseLines(good + [bad] + rest, START) == Err(ParseLine(AddAll(START, items), bad).error)
  {
    hide ParseLines, Reads, ParseLine;
    assert good + [bad] + rest == good + ([bad] + rest);
    ReadsParses(good, items, START, [bad] + rest);
    ParseLinesCons([bad] + rest, AddAll(START, items));
  }

  /** What a keyed line is refused for, whatever has been read: its keyword, its schema, or its fields. */
  lemma {:induction false} LineErrors(p: Progress, words: seq<string>)
    requires words != []
    ensures words[0] !in ["schema", "node", "model", "active", "telemetry"] ==>
              Keyed(p, words[0], words[1..]) == Err(UnsupportedLine(words[0]))
    ensures words == ["schema"] ==> Keyed(p, words[0], words[1..]) == Err(MissingSchemaValue)
    ensures words[0] == "schema" && |words| > 1 && words[1] != "gpu-bridge-snapshot/v1" ==>
              Keyed(p, words[0], words[1..]) == Err(UnsupportedSchema(words[1]))
    ensures words[0] == "schema" && |words| > 2 && words[1] == "gpu-bridge-snapshot/v1" ==>
              Keyed(p, words[0], words[1..]) == Err(UnexpectedTokens)
    ensures words[0] == "node" && AreFields(words[1..], NODE_FIELDS) && LastValue(words[1..], "id").None? ==>
              Keyed(p, words[0], words[1..]) == Err(MissingField("id"))
    ensures words[0] == "active" && AreFields(words[1..], ACTIVE_FIELDS) && LastValue(words[1..], "id").None? ==>
              Keyed(p, words[0], words[1..]) == Err(MissingField("id"))
    ensures words[0] == "model" && AreFields(words[1..], MODEL_FIELDS) && LastValue(words[1..], "id").None? ==>
              Keyed(p, words[0], words[1..]) == Err(MissingField("id"))
  {
    hide Collect, LastValue, AreKeys, AreFields, DecodeField, SchemaOf;
    var parts := words[1..];
    KeysAre();
    CollectIs(parts, NODE_FIELDS, map[], "id");
    CollectIs(parts, ACTIVE_FIELDS, map[], "id");
    CollectIs(parts, MODEL_FIELDS, map[], "id");
    if words[0] == "schema" && |words| > 1 {
      assert parts[0] == words[1];
    }
  }

  /** A payload field is refused as missing, as no Base64, or as no UTF-8. */
  lemma {:induction false} FieldErrors(fields: map<string, string>, name: string)
    ensures DecodeField(fields, name) == Err(MissingField(name)) <==> name !in fields
    ensures DecodeField(fields, name) == Err(BadBase64(name))
            <==> name in fields && forall bytes :: Base64.Encode(bytes) != fields[name]
    ensures DecodeField(fields, name) == Err(FieldNotUtf8(name))
            <==> name in fields && (exists bytes :: Base64.Encode(bytes) == fields[name])
                 && forall payload :: Base64.Encode(Utf8.Encode(payload)) != fields[name]
  {
    hide Base64.Encode, Utf8.Encode, Base64.Decode, Utf8.Decode;
    if name in fields {
      var value := fields[name];
      var decoded := Base64.Decode(value);
      assert decoded.Some? ==> Base64.Encode(decoded.value) == value;
      forall bytes ensures Base64.Encode(bytes) == value ==> Base64.Decode(value) == Some(bytes) {
        Base64.DecodeOfEncode(bytes);
      }
      forall payload ensures Base64.Encode(Utf8.Encode(payload)) == value ==> DecodeField(fields, name) == Ok(payload) {
        DecodeFieldIff(fields, name, payload);
      }
      if DecodeField(fields, name).Ok? {
        DecodeFieldIff(fields, name, DecodeField(fields, name).value);
      }
    }
  }
}
