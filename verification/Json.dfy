/**
 JSON text, RFC 8259: the string escaping done by the bridge and by `serde_json`, and a reader
 for whole documents. Numbers keep their lexeme so that integer and fractional forms stay apart.
 */
module Json {
  import opened Outcome
  import opened Text
  import Utf8

  // ----- escaping -----

  /** `Bridge` is `escape_json_string`; `Serde` also has short forms for backspace and form feed. */
  datatype Style = Bridge | Serde

  function HexDigit(d: nat): (c: char)
    requires d < 16
  {
    if d < 10 then (d + '0' as int) as char else (d - 10 + 'a' as int) as char
  }

  function HexValue(c: char): (r: Option<nat>)
    ensures r.Some? ==> r.value < 16
  {
    if '0' <= c <= '9' then Some(c as int - '0' as int)
    else if 'a' <= c <= 'f' then Some(c as int - 'a' as int + 10)
    else if 'A' <= c <= 'F' then Some(c as int - 'A' as int + 10)
    else None
  }

  function EscapeChar(style: Style, c: char): (r: string)
    ensures r != []
  {
    if c == '"' then "\\\""
    else if c == '\\' then "\\\\"
    else if c == '\n' then "\\n"
    else if c == '\r' then "\\r"
    else if c == '\t' then "\\t"
    else if style.Serde? && c as int == 8 then "\\b"
    else if style.Serde? && c as int == 12 then "\\f"
    else if c < ' ' then "\\u00" + [HexDigit(c as int / 16), HexDigit(c as int % 16)]
    else [c]
  }

  function Escape(style: Style, s: string): string {
    if s == [] then [] else EscapeChar(style, s[0]) + Escape(style, s[1..])
  }

  function Quote(style: Style, s: string): string {
    "\"" + Escape(style, s) + "\""
  }

  lemma {:induction false} EscapeConcat(style: Style, s: string, t: string)
    ensures Escape(style, s + t) == Escape(style, s) + Escape(style, t)
  {
    if s == [] {
      assert s + t == t;
    } else {
      assert (s + t)[1..] == s[1..] + t;
      EscapeConcat(style, s[1..], t);
    }
  }

  /** `escape_json_string`: one pass over the characters, growing the output. */
  method EscapeJsonString(input: string) returns (escaped: string)
    ensures escaped == Escape(Bridge, input)
  {
    escaped := "";
    for i := 0 to |input|
      invariant escaped == Escape(Bridge, input[..i])
    {
      assert input[..i + 1] == input[..i] + [input[i]];
      EscapeConcat(Bridge, input[..i], [input[i]]);
      var ch := input[i];
      assert Escape(Bridge, [ch]) == EscapeChar(Bridge, ch) + [];
      match ch {
        case '"' => escaped := escaped + "\\\"";
        case '\\' => escaped := escaped + "\\\\";
        case '\n' => escaped := escaped + "\\n";
        case '\r' => escaped := escaped + "\\r";
        case '\t' => escaped := escaped + "\\t";
        case c =>
          if c < ' ' {
            escaped := escaped + "\\u00" + [HexDigit(c as int / 16), HexDigit(c as int % 16)];
          } else {
            escaped := escaped + [c];
          }
      }
    }
    assert input[..|input|] == input;
  }

  // ----- reading strings -----

  function Hex4(s: string): (r: Option<nat>)
    ensures r.Some? ==> |s| >= 4 && r.value < 0x10000
  {
    if |s| < 4 then None
    else
      var a :- HexValue(s[0]);
      var b :- HexValue(s[1]);
      var c :- HexValue(s[2]);
      var d :- HexValue(s[3]);
      Some(((a * 16 + b) * 16 + c) * 16 + d)
  }

  /** The character named by an escape whose backslash has been read, and what follows it. */
  function ReadEscape(s: string): (r: Option<(char, string)>)
    ensures r.Some? ==> |r.value.1| < |s|
  {
    if s == [] then None
    else
      var rest := s[1..];
      match s[0]
      case '"' => Some(('"', rest))
      case '\\' => Some(('\\', rest))
      case '/' => Some(('/', rest))
      case 'b' => Some((8 as char, rest))
      case 'f' => Some((12 as char, rest))
      case 'n' => Some(('\n', rest))
      case 'r' => Some(('\r', rest))
      case 't' => Some(('\t', rest))
      case 'u' =>
        var hi :- Hex4(rest);
        if Utf8.IsScalar(hi) then Some((hi as char, rest[4..]))
        else if hi < 0xDC00 && |rest| >= 6 && rest[4] == '\\' && rest[5] == 'u' then
          var lo :- Hex4(rest[6..]);
          if 0xDC00 <= lo < 0xE000 then
            Some(((0x10000 + (hi - 0xD800) * 0x400 + (lo - 0xDC00)) as char, rest[10..]))
          else None
        else None
      case _ => None
  }

  /** The contents of a string whose opening quote has been read, and what follows the closing one. */
  function ReadString(s: string): (r: Option<(string, string)>)
    ensures r.Some? ==> |r.value.1| < |s|
    decreases |s|
  {
    if s == [] || s[0] < ' ' then None
    else if s[0] == '"' then Some(([], s[1..]))
    else if s[0] == '\\' then
      var (c, rest) :- ReadEscape(s[1..]);
      var (tail, rest') :- ReadString(rest);
      Some(([c] + tail, rest'))
    else
      var (tail, rest) :- ReadString(s[1..]);
      Some(([s[0]] + tail, rest))
  }

  lemma {:induction false} HexValueOfDigit(d: nat)
    requires d < 16
    ensures HexValue(HexDigit(d)) == Some(d)
  {}

  /** Reading an escaped character gives the character back, whatever follows. */
  lemma {:induction false} ReadEscapedChar(style: Style, c: char, rest: string)
    requires ReadString(rest).Some?
    ensures ReadString(EscapeChar(style, c) + rest)
         == Some(([c] + ReadString(rest).value.0, ReadString(rest).value.1))
  {
    var e := EscapeChar(style, c);
    var s := e + rest;
    if |e| == 1 {
      assert s[1..] == rest;
    } else {
      assert s[0] == '\\';
      if |e| == 2 {
        assert s[1..][0] == e[1] && s[1..][1..] == rest;
      } else {
        HexValueOfDigit(c as int / 16);
        HexValueOfDigit(c as int % 16);
        assert s[1..][0] == 'u';
        var t := s[1..][1..];
        assert t[0] == '0' && t[1] == '0' && t[2] == e[4] && t[3] == e[5] && t[4..] == rest;
        assert Hex4(t) == Some(c as int);
      }
    }
  }

  /** Escaping then reading is the identity on every string, in both styles. */
  lemma {:induction false} ReadEscaped(style: Style, s: string, rest: string)
    ensures ReadString(Escape(style, s) + "\"" + rest) == Some((s, rest))
  {
    if s == [] {
      assert Escape(style, s) + "\"" + rest == "\"" + rest;
      assert ("\"" + rest)[1..] == rest;
    } else {
      ReadEscaped(style, s[1..], rest);
      var tail := Escape(style, s[1..]) + "\"" + rest;
      assert Escape(style, s) + "\"" + rest == EscapeChar(style, s[0]) + tail;
      ReadEscapedChar(style, s[0], tail);
      assert [s[0]] + s[1..] == s;
    }
  }

  // ----- reading documents -----

  datatype Value =
    | Null
    | Bool(b: bool)
    | Number(lexeme: string)
    | Str(s: string)
    | Array(items: seq<Value>)
    | Object(members: seq<Member>)

  datatype Member = Member(key: string, value: Value)

  predicate IsJsonSpace(c: char) {
    c == ' ' || c == '\t' || c == '\n' || c == '\r'
  }

  function SkipWs(s: string): (r: string)
    ensures |r| <= |s|
  {
    if s != [] && IsJsonSpace(s[0]) then SkipWs(s[1..]) else s
  }

  function DigitRun(s: string): (n: nat)
    ensures n <= |s|
  {
    if s == [] || !IsDigit(s[0]) then 0 else 1 + DigitRun(s[1..])
  }

  /** The length of `mark digits+` when the mark is there, 0 when it is not. */
  function FractionLen(s: string): (r: Option<nat>)
    ensures r.Some? ==> r.value <= |s|
  {
    if s == [] || s[0] != '.' then Some(0)
    else if DigitRun(s[1..]) == 0 then None
    else Some(1 + DigitRun(s[1..]))
  }

  function ExponentLen(s: string): (r: Option<nat>)
    ensures r.Some? ==> r.value <= |s|
  {
    if s == [] || (s[0] != 'e' && s[0] != 'E') then Some(0)
    else
      var sign := if |s| > 1 && (s[1] == '+' || s[1] == '-') then 2 else 1;
      if DigitRun(s[sign..]) == 0 then None else Some(sign + DigitRun(s[sign..]))
  }

  /** The length of the number at the front: sign, integer part without leading zeros, fraction, exponent. */
  function NumberLen(s: string): (r: Option<nat>)
    ensures r.Some? ==> 0 < r.value <= |s|
  {
    var sign := if s != [] && s[0] == '-' then 1 else 0;
    var whole := if s[sign..] != [] && s[sign] == '0' then 1 else DigitRun(s[sign..]);
    if whole == 0 then None
    else
      var n := sign + whole;
      var f :- FractionLen(s[n..]);
      var e :- ExponentLen(s[n + f..]);
      Some(n + f + e)
  }

  function ReadLiteral(s: string, word: string, v: Value): (r: Option<(Value, string)>)
    requires word != []
    ensures r.Some? ==> |r.value.1| < |s|
  {
    if word <= s then Some((v, s[|word|..])) else None
  }

  function ReadValue(s: string): (r: Option<(Value, string)>)
    ensures r.Some? ==> |r.value.1| < |s|
    decreases |s|, 1
  {
    var t := SkipWs(s);
    if t == [] then None
    else if t[0] == '"' then
      var (str, rest) :- ReadString(t[1..]);
      Some((Str(str), rest))
    else if t[0] == '[' then
      var u := SkipWs(t[1..]);
      if u != [] && u[0] == ']' then Some((Array([]), u[1..]))
      else
        var (items, rest) :- ReadElements(u);
        Some((Array(items), rest))
    else if t[0] == '{' then
      var u := SkipWs(t[1..]);
      if u != [] && u[0] == '}' then Some((Object([]), u[1..]))
      else
        var (members, rest) :- ReadMembers(u);
        Some((Object(members), rest))
    else if t[0] == 'n' then ReadLiteral(t, "null", Null)
    else if t[0] == 't' then ReadLiteral(t, "true", Bool(true))
    else if t[0] == 'f' then ReadLiteral(t, "false", Bool(false))
    else
      var n :- NumberLen(t);
      Some((Number(t[..n]), t[n..]))
  }

  /** One or more values separated by commas, up to the closing bracket. */
  function ReadElements(s: string): (r: Option<(seq<Value>, string)>)
    ensures r.Some? ==> |r.value.1| < |s|
    decreases |s|, 2
  {
    var (v, after) :- ReadValue(s);
    var t := SkipWs(after);
    if t != [] && t[0] == ']' then Some(([v], t[1..]))
    else if t != [] && t[0] == ',' then
      var (more, rest) :- ReadElements(t[1..]);
      Some(([v] + more, rest))
    else None
  }

  /** A key, a colon and a value. */
  function ReadMember(s: string): (r: Option<(Member, string)>)
    ensures r.Some? ==> |r.value.1| < |s|
    decreases |s|, 2
  {
    var t := SkipWs(s);
    if t == [] || t[0] != '"' then None
    else
      var (key, after) :- ReadString(t[1..]);
      var u := SkipWs(after);
      if u == [] || u[0] != ':' then None
      else
        var (v, rest) :- ReadValue(u[1..]);
        Some((Member(key, v), rest))
  }

  /** One or more members separated by commas, up to the closing brace. */
  function ReadMembers(s: string): (r: Option<(seq<Member>, string)>)
    ensures r.Some? ==> |r.value.1| < |s|
    decreases |s|, 3
  {
    var (m, after) :- ReadMember(s);
    var t := SkipWs(after);
    if t != [] && t[0] == '}' then Some(([m], t[1..]))
    else if t != [] && t[0] == ',' then
      var (more, rest) :- ReadMembers(t[1..]);
      Some(([m] + more, rest))
    else None
  }

  /** `serde_json::from_str`: one value and nothing but white space after it. */
  function ReadDocument(s: string): Option<Value> {
    var (v, rest) :- ReadValue(s);
    if SkipWs(rest) == [] then Some(v) else None
  }

  // ----- what printed text reads back as -----

  lemma {:induction false} ReadQuoted(style: Style, s: string, rest: string)
    ensures ReadValue(Quote(style, s) + rest) == Some((Str(s), rest))
  {
    ReadEscaped(style, s, rest);
    hide ReadString, Escape;
    var t := Quote(style, s) + rest;
    assert t[0] == '"' && t[1..] == Escape(style, s) + "\"" + rest;
  }

  lemma {:induction false} DigitRunOfDigits(d: string, rest: string)
    requires AllDigits(d) && (rest == [] || !IsDigit(rest[0]))
    ensures DigitRun(d + rest) == |d|
  {
    if d == [] {
      assert d + rest == rest;
    } else {
      assert (d + rest)[1..] == d[1..] + rest;
      DigitRunOfDigits(d[1..], rest);
    }
  }

  lemma {:induction false} DecimalHead(n: nat)
    ensures Decimal(n)[0] == '0' ==> |Decimal(n)| == 1
  {
  }

  predicate EndsNumber(rest: string) {
    rest == [] || rest[0] == ',' || rest[0] == '}'
  }

  lemma {:induction false} ReadDecimal(n: nat, rest: string)
    requires EndsNumber(rest)
    ensures ReadValue(Decimal(n) + rest) == Some((Number(Decimal(n)), rest))
  {
    var d := Decimal(n);
    var t := d + rest;
    DecimalHead(n);
    DigitRunOfDigits(d, rest);
    assert t[0] == d[0] && IsDigit(d[0]);
    assert t[0..] == t && t[|d|..] == rest && t[..|d|] == d;
    hide Decimal, DigitRun, ReadElements, ReadMembers, ReadString;
    assert NumberLen(t) == Some(|d|);
  }

  function Quoted(style: Style, fields: seq<string>): (r: seq<string>)
    ensures |r| == |fields|
    decreases |fields|
  {
    if fields == [] then [] else [Quote(style, fields[0])] + Quoted(style, fields[1..])
  }

  function AsValues(fields: seq<string>): seq<Value>
    decreases |fields|
  {
    if fields == [] then [] else [Str(fields[0])] + AsValues(fields[1..])
  }

  /** The text of a non-empty string array after its opening bracket, written front to back. */
  function ElementsText(style: Style, fields: seq<string>, rest: string): string
    requires fields != []
    decreases |fields|
  {
    Quote(style, fields[0])
    + if |fields| == 1 then "]" + rest else "," + ElementsText(style, fields[1..], rest)
  }

  lemma {:induction false} JoinAsText(style: Style, fields: seq<string>, rest: string)
    requires fields != []
    ensures Join(Quoted(style, fields), ",") + "]" + rest == ElementsText(style, fields, rest)
    decreases |fields|
  {
    hide Quote;
    if |fields| > 1 {
      JoinAsText(style, fields[1..], rest);
      assert Quoted(style, fields)[1..] == Quoted(style, fields[1..]);
    }
  }

  lemma {:induction false} ReadElementsNext(s: string, v: Value, after: string)
    requires ReadValue(s) == Some((v, after)) && after != []
    ensures after[0] == ']' ==> ReadElements(s) == Some(([v], after[1..]))
    ensures after[0] == ',' && ReadElements(after[1..]).Some? ==>
              ReadElements(s) == Some(([v] + ReadElements(after[1..]).value.0, ReadElements(after[1..]).value.1))
  {
    hide ReadValue;
  }

  lemma {:induction false} ReadStringElements(style: Style, fields: seq<string>, rest: string)
    requires fields != []
    ensures ReadElements(ElementsText(style, fields, rest)) == Some((AsValues(fields), rest))
    decreases |fields|
  {
    hide ReadValue, ReadElements, Quote;
    var text := ElementsText(style, fields, rest);
    if |fields| == 1 {
      assert AsValues(fields) == [Str(fields[0])];
      var after := "]" + rest;
      assert after[1..] == rest;
      ReadQuoted(style, fields[0], after);
      ReadElementsNext(text, Str(fields[0]), after);
    } else {
      ReadStringElements(style, fields[1..], rest);
      var after := "," + ElementsText(style, fields[1..], rest);
      assert after[1..] == ElementsText(style, fields[1..], rest);
      ReadQuoted(style, fields[0], after);
      ReadElementsNext(text, Str(fields[0]), after);
    }
  }

  lemma {:induction false} ReadStringArray(style: Style, fields: seq<string>, rest: string)
    ensures ReadValue("[" + Join(Quoted(style, fields), ",") + "]" + rest) == Some((Array(AsValues(fields)), rest))
  {
    var body := Join(Quoted(style, fields), ",") + "]" + rest;
    var t := "[" + Join(Quoted(style, fields), ",") + "]" + rest;
    assert t[0] == '[' && t[1..] == body;
    if fields == [] {
      assert body[0] == ']' && body[1..] == rest;
    } else {
      JoinAsText(style, fields, rest);
      assert body[0] == Quote(style, fields[0])[0] == '"';
      ReadStringElements(style, fields, rest);
      hide ReadElements, ElementsText, Join, Quoted;
    }
  }

  // ----- printed objects -----

  /** A value as the serialisers print it: an escaped string, an integer, or a list of strings. */
  datatype Printed = PStr(style: Style, s: string) | PInt(i: int) | PList(style: Style, ss: seq<string>)

  function PrintedText(v: Printed): string {
    match v
    case PStr(style, s) => Quote(style, s)
    case PInt(i) => if i < 0 then "-" + Decimal(-i) else Decimal(i)
    case PList(style, ss) => "[" + Join(Quoted(style, ss), ",") + "]"
  }

  function Meaning(v: Printed): Value {
    match v
    case PStr(_, s) => Str(s)
    case PInt(i) => Number(PrintedText(v))
    case PList(_, ss) => Array(AsValues(ss))
  }

  lemma {:induction false} ReadPrinted(v: Printed, after: string)
    requires after != [] && EndsNumber(after)
    ensures ReadValue(PrintedText(v) + after) == Some((Meaning(v), after))
  {
    hide ReadValue, Decimal, Quoted, Join, AsValues, Quote;
    match v
    case PStr(style, s) => ReadQuoted(style, s, after);
    case PInt(i) => if i < 0 { ReadNegative(-i, after); } else { ReadDecimal(i, after); }
    case PList(style, ss) =>
      ReadStringArray(style, ss, after);
      assert PrintedText(v) + after == "[" + Join(Quoted(style, ss), ",") + "]" + after;
  }

  lemma {:induction false} ReadNegative(n: nat, rest: string)
    requires EndsNumber(rest)
    ensures ReadValue("-" + Decimal(n) + rest) == Some((Number("-" + Decimal(n)), rest))
  {
    var d := Decimal(n);
    var t := "-" + d + rest;
    DecimalHead(n);
    DigitRunOfDigits(d, rest);
    assert IsDigit(d[0]);
    hide Decimal, DigitRun, ReadElements, ReadMembers, ReadString;
    assert t[1..] == d + rest && t[1 + |d|..] == rest && t[..1 + |d|] == "-" + d && t[1] == d[0];
    assert NumberLen(t) == Some(1 + |d|);
  }

  /** `"key":value`, and what comes after it. */
  function MemberText(key: string, value: string): string {
    "\"" + key + "\"" + (":" + value)
  }

  /** The members of an object after its opening brace, and what follows the closing one. */
  function MembersText(ms: seq<(string, Printed)>, rest: string): string
    requires ms != []
    decreases |ms|
  {
    MemberText(ms[0].0, PrintedText(ms[0].1) + if |ms| == 1 then "}" + rest else "," + MembersText(ms[1..], rest))
  }

  /** A whole object, without white space, and what follows it. */
  function ObjectText(ms: seq<(string, Printed)>, rest: string): string
    requires ms != []
  {
    "{" + MembersText(ms, rest)
  }

  function Meanings(ms: seq<(string, Printed)>): (r: seq<Member>)
    ensures |r| == |ms|
    ensures forall i :: 0 <= i < |ms| ==> r[i] == Member(ms[i].0, Meaning(ms[i].1))
    decreases |ms|
  {
    if ms == [] then [] else [Member(ms[0].0, Meaning(ms[0].1))] + Meanings(ms[1..])
  }

  predicate IsPlain(s: string) {
    forall i :: 0 <= i < |s| ==> ' ' <= s[i] && s[i] != '"' && s[i] != '\\'
  }

  lemma {:induction false} EscapePlain(style: Style, s: string)
    requires IsPlain(s)
    ensures Escape(style, s) == s
  {
    if s != [] {
      EscapePlain(style, s[1..]);
      assert [s[0]] + s[1..] == s;
    }
  }

  lemma {:induction false} ReadPrintedMember(key: string, text: string, v: Value, after: string)
    requires IsPlain(key) && ReadValue(text) == Some((v, after))
    ensures ReadMember(MemberText(key, text)) == Some((Member(key, v), after))
  {
    EscapePlain(Bridge, key);
    var tail := ":" + text;
    var s := MemberText(key, text);
    ReadEscaped(Bridge, key, tail);
    hide ReadString, Escape, ReadValue;
    assert s[0] == '"' && s[1..] == key + "\"" + tail;
    assert tail[1..] == text;
  }

  lemma {:induction false} ReadMembersNext(s: string, m: Member, after: string)
    requires ReadMember(s) == Some((m, after)) && after != []
    ensures after[0] == '}' ==> ReadMembers(s) == Some(([m], after[1..]))
    ensures after[0] == ',' && ReadMembers(after[1..]).Some? ==>
              ReadMembers(s) == Some(([m] + ReadMembers(after[1..]).value.0, ReadMembers(after[1..]).value.1))
  {
    hide ReadMember;
  }

  lemma {:induction false} ReadMembersText(ms: seq<(string, Printed)>, rest: string)
    requires ms != [] && forall i :: 0 <= i < |ms| ==> IsPlain(ms[i].0)
    ensures ReadMembers(MembersText(ms, rest)) == Some((Meanings(ms), rest))
    decreases |ms|
  {
    hide ReadMembers, ReadMember, ReadValue, IsPlain, PrintedText, Meaning, MemberText;
    var (key, v) := ms[0];
    var after := if |ms| == 1 then "}" + rest else "," + MembersText(ms[1..], rest);
    ReadPrinted(v, after);
    ReadPrintedMember(key, PrintedText(v) + after, Meaning(v), after);
    ReadMembersNext(MembersText(ms, rest), Member(key, Meaning(v)), after);
    if |ms| == 1 {
      assert after[1..] == rest;
      assert Meanings(ms) == [Member(key, Meaning(v))];
    } else {
      ReadMembersText(ms[1..], rest);
      assert after[1..] == MembersText(ms[1..], rest);
    }
  }

  /** A printed object reads back as its members, in order. */
  lemma {:induction false} ReadObject(ms: seq<(string, Printed)>, rest: string)
    requires ms != [] && SkipWs(rest) == [] && forall i :: 0 <= i < |ms| ==> IsPlain(ms[i].0)
    ensures ReadDocument(ObjectText(ms, rest)) == Some(Object(Meanings(ms)))
  {
    hide ReadMembers, IsPlain, PrintedText, Meaning;
    ReadMembersText(ms, rest);
    var d, t := ObjectText(ms, rest), MembersText(ms, rest);
    assert d[0] == '{' && d[1..] == t && t[0] == '"';
    hide MembersText, ObjectText;
    assert SkipWs(d) == d && SkipWs(t) == t;
  }

  /** The bytes a printed object takes besides its values. */
  lemma {:induction false} MemberTextLen(key: string, value: string)
    ensures Utf8.Len(MemberText(key, value)) == Utf8.Len(key) + 3 + Utf8.Len(value)
  {
    Utf8.EncodeConcat("\"" + key + "\"", ":" + value);
    Utf8.EncodeConcat("\"" + key, "\"");
    Utf8.EncodeConcat("\"", key);
    Utf8.EncodeConcat(":", value);
    AsciiChar('"');
    AsciiChar(':');
    hide Utf8.Encode;
  }

  lemma {:induction false} AsciiChar(c: char)
    requires c as int < 0x80
    ensures Utf8.Len([c]) == 1
  {
    assert Utf8.Encode([c]) == Utf8.EncodeChar(c) + Utf8.Encode([]);
  }

  /** How long a printed object is: for each member its key, its value and four marks, and one more. */
  function MembersLen(ms: seq<(string, Printed)>): nat
    decreases |ms|
  {
    if ms == [] then 0
    else Utf8.Len(ms[0].0) + 4 + Utf8.Len(PrintedText(ms[0].1)) + MembersLen(ms[1..])
  }

  lemma {:induction false} MembersTextLen(ms: seq<(string, Printed)>, rest: string)
    requires ms != []
    ensures Utf8.Len(MembersText(ms, rest)) == MembersLen(ms) + Utf8.Len(rest)
    decreases |ms|
  {
    hide Utf8.Encode, PrintedText, MemberText;
    var (key, v) := ms[0];
    var after := if |ms| == 1 then "}" + rest else "," + MembersText(ms[1..], rest);
    MemberTextLen(key, PrintedText(v) + after);
    Utf8.EncodeConcat(PrintedText(v), after);
    if |ms| == 1 {
      Utf8.EncodeConcat("}", rest);
      AsciiChar('}');
    } else {
      MembersTextLen(ms[1..], rest);
      Utf8.EncodeConcat(",", MembersText(ms[1..], rest));
      AsciiChar(',');
    }
  }

  lemma {:induction false} ObjectTextLen(ms: seq<(string, Printed)>, rest: string)
    requires ms != []
    ensures Utf8.Len(ObjectText(ms, rest)) == 1 + MembersLen(ms) + Utf8.Len(rest)
  {
    hide Utf8.Encode, MembersText, MembersLen;
    MembersTextLen(ms, rest);
    Utf8.EncodeConcat("{", MembersText(ms, rest));
    AsciiChar('{');
  }

  lemma {:induction false} QuoteLen(style: Style, s: string)
    ensures Utf8.Len(Quote(style, s)) == Utf8.Len(Escape(style, s)) + 2
  {
    Utf8.EncodeConcat("\"" + Escape(style, s), "\"");
    Utf8.EncodeConcat("\"", Escape(style, s));
    AsciiChar('"');
    hide Utf8.Encode, Escape;
  }

  /** The bytes of an escaped string. */
  function EscapedLen(style: Style, s: string): nat {
    Utf8.Len(Escape(style, s))
  }

  lemma {:induction false} EscapedLenEmpty(style: Style)
    ensures EscapedLen(style, "") == 0
  {}

  lemma {:induction false} EscapedCharLen(style: Style, c: char)
    ensures 1 <= Utf8.Len(EscapeChar(style, c)) <= 6
  {
    var e := EscapeChar(style, c);
    if |e| == 1 {
      assert e == [e[0]];
      assert Utf8.Encode([e[0]]) == Utf8.EncodeChar(e[0]) + Utf8.Encode([]);
    } else {
      Utf8.AsciiLen(e);
    }
  }

  lemma {:induction false} EscapedLenStep(style: Style, text: string, k: nat)
    requires k < |text|
    ensures EscapedLen(style, text[..k]) < EscapedLen(style, text[..k + 1]) <= EscapedLen(style, text[..k]) + 6
  {
    var c := text[k];
    assert text[..k + 1] == text[..k] + [c];
    EscapeConcat(style, text[..k], [c]);
    assert Escape(style, [c]) == EscapeChar(style, c) + [] == EscapeChar(style, c);
    hide Escape, EscapeChar, Utf8.Encode;
    Utf8.EncodeConcat(Escape(style, text[..k]), EscapeChar(style, c));
    EscapedCharLen(style, c);
  }

  lemma {:induction false} EscapedLenMonotone(style: Style, text: string, j: nat, k: nat)
    requires j <= k <= |text|
    ensures EscapedLen(style, text[..j]) <= EscapedLen(style, text[..k])
    decreases k - j
  {
    hide EscapedLen;
    if j < k {
      EscapedLenStep(style, text, k - 1);
      EscapedLenMonotone(style, text, j, k - 1);
    }
  }

  lemma {:induction false} MembersLenConcat(a: seq<(string, Printed)>, b: seq<(string, Printed)>)
    ensures MembersLen(a + b) == MembersLen(a) + MembersLen(b)
    decreases |a|
  {
    hide Utf8.Len, PrintedText;
    if a == [] {
      assert a + b == b;
    } else {
      assert (a + b)[1..] == a[1..] + b;
      MembersLenConcat(a[1..], b);
    }
  }

  /** The length of members that end with a string grows with the string's escaped length only. */
  lemma {:induction false} LastStringLen(front: seq<(string, Printed)>, key: string, s: string)
    ensures MembersLen(front + [(key, PStr(Serde, s))]) == MembersLen(front) + Utf8.Len(key) + 6 + EscapedLen(Serde, s)
  {
    hide Utf8.Len, Quote, Escape;
    MembersLenConcat(front, [(key, PStr(Serde, s))]);
    QuoteLen(Serde, s);
    assert [(key, PStr(Serde, s))][1..] == [];
  }

  // ----- typed access, as derived deserialisers do it -----

  /** The value of a key that occurs exactly once; repeats are an error. */
  function Single(members: seq<Member>, key: string): Option<Value>
    decreases |members|
  {
    if members == [] then None
    else if members[0].key != key then Single(members[1..], key)
    else if Mentions(members[1..], key) then None
    else Some(members[0].value)
  }

  predicate Mentions(members: seq<Member>, key: string) {
    exists i :: 0 <= i < |members| && members[i].key == key
  }

  function AsString(v: Value): Option<string> {
    if v.Str? then Some(v.s) else None
  }

  const USIZE_MAX: nat := 0xFFFF_FFFF_FFFF_FFFF

  /** An unsigned integer: a lexeme of digits only, in range. */
  function AsUsize(v: Value): (r: Option<nat>)
    ensures r.Some? ==> r.value <= USIZE_MAX
  {
    if v.Number? && AllDigits(v.lexeme) && DigitsValue(v.lexeme) <= USIZE_MAX then Some(DigitsValue(v.lexeme)) else None
  }

  function AsStrings(items: seq<Value>): Option<seq<string>>
    decreases |items|
  {
    if items == [] then Some([])
    else
      var head :- AsString(items[0]);
      var tail :- AsStrings(items[1..]);
      Some([head] + tail)
  }

  function AsStringList(v: Value): Option<seq<string>> {
    if v.Array? then AsStrings(v.items) else None
  }

  lemma {:induction false} AsStringsCons(s: string, items: seq<Value>)
    requires AsStrings(items).Some?
    ensures AsStrings([Str(s)] + items) == Some([s] + AsStrings(items).value)
  {
    assert ([Str(s)] + items)[1..] == items;
  }

  lemma {:induction false} AsStringsOfValues(fields: seq<string>)
    ensures AsStrings(AsValues(fields)) == Some(fields)
    decreases |fields|
  {
    if fields != [] {
      AsStringsOfValues(fields[1..]);
      AsStringsCons(fields[0], AsValues(fields[1..]));
      assert [fields[0]] + fields[1..] == fields;
    }
  }
}
