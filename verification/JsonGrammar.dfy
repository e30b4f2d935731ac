/**
 The JSON grammar of RFC 8259, said on texts and values without the reader, and the proof that the
 reader of module `Json` accepts exactly the texts of the grammar, each with its own value.
 */
module JsonGrammar {
  import opened Outcome
  import opened Text
  import opened Json
  import Utf8

  // ----- the grammar: numbers -----

  predicate IsSpace(s: string) {
    forall i :: 0 <= i < |s| ==> s[i] == ' ' || s[i] == '\t' || s[i] == '\n' || s[i] == '\r'
  }

  predicate IsDigits(s: string) {
    s != "" && AllDigits(s)
  }

  /** No leading zero. */
  predicate IsWhole(s: string) {
    s == "0" || (IsDigits(s) && s[0] != '0')
  }

  predicate IsFraction(s: string) {
    s == "" || (s[0] == '.' && IsDigits(s[1..]))
  }

  predicate IsExponent(s: string) {
    s == "" || ((s[0] == 'e' || s[0] == 'E')
                && (IsDigits(s[1..]) || (|s| > 1 && (s[1] == '+' || s[1] == '-') && IsDigits(s[2..]))))
  }

  function Sign(minus: bool): string {
    if minus then "-" else ""
  }

  predicate AreParts(s: string, minus: bool, whole: string, fraction: string, exponent: string) {
    IsWhole(whole) && IsFraction(fraction) && IsExponent(exponent)
    && s == Sign(minus) + (whole + (fraction + exponent))
  }

  ghost predicate IsNumber(s: string) {
    exists minus, whole, fraction, exponent :: AreParts(s, minus, whole, fraction, exponent)
  }

  // ----- the grammar: strings -----

  predicate IsHex(c: char, d: nat) {
    d < 16 && (c == "0123456789abcdef"[d] || c == "0123456789ABCDEF"[d])
  }

  /** The four hexadecimal digits of a code, the first one first. */
  function HexDigits(code: nat): (nat, nat, nat, nat) {
    (code / 4096, code / 256 % 16, code / 16 % 16, code % 16)
  }

  /** A backslash, `u` and the four hexadecimal digits of the code, in either case. */
  predicate IsUnicode(s: string, code: nat) {
    && |s| == 6 && s[0] == '\\' && s[1] == 'u' && code < 0x10000
    && var (a, b, c, d) := HexDigits(code);
       IsHex(s[2], a) && IsHex(s[3], b) && IsHex(s[4], c) && IsHex(s[5], d)
  }

  predicate IsShort(letter: char, c: char) {
    || (letter == c && (c == '"' || c == '\\' || c == '/'))
    || (letter == 'b' && c as int == 8) || (letter == 'f' && c as int == 12)
    || (letter == 'n' && c as int == 10) || (letter == 'r' && c as int == 13) || (letter == 't' && c as int == 9)
  }

  /** Two escapes, for a character above the first 65536. */
  predicate IsPair(s: string, c: char) {
    && |s| == 12 && c as int >= 0x10000
    && IsUnicode(s[..6], 0xD800 + (c as int - 0x10000) / 0x400)
    && IsUnicode(s[6..], 0xDC00 + (c as int - 0x10000) % 0x400)
  }

  predicate CharText(s: string, c: char) {
    || (s == [c] && c >= ' ' && c != '"' && c != '\\')
    || (|s| == 2 && s[0] == '\\' && IsShort(s[1], c))
    || IsUnicode(s, c as int)
    || IsPair(s, c)
  }

  ghost predicate StringText(s: string, t: string)
    decreases |t|
  {
    if t == "" then s == ""
    else exists head, tail :: s == head + tail && CharText(head, t[0]) && StringText(tail, t[1..])
  }

  // ----- the grammar: values -----

  ghost predicate ValueText(s: string, v: Value)
    decreases v, 0
  {
    match v
    case Null => s == "null"
    case Bool(b) => s == if b then "true" else "false"
    case Number(lexeme) => s == lexeme && IsNumber(lexeme)
    case Str(t) => exists body :: s == "\"" + (body + "\"") && StringText(body, t)
    case Array(items) =>
      exists inner :: s == "[" + (inner + "]") && if items == [] then IsSpace(inner) else ItemsText(inner, items)
    case Object(members) =>
      exists inner :: s == "{" + (inner + "}") && if members == [] then IsSpace(inner) else PairsText(inner, members)
  }

  ghost predicate PaddedText(s: string, v: Value)
    decreases v, 1
  {
    exists before, t, after :: s == before + (t + after) && IsSpace(before) && ValueText(t, v) && IsSpace(after)
  }

  ghost predicate ItemsText(s: string, items: seq<Value>)
    requires items != []
    decreases items, 0
  {
    if |items| == 1 then PaddedText(s, items[0])
    else exists head, tail :: s == head + ("," + tail) && PaddedText(head, items[0]) && ItemsText(tail, items[1..])
  }

  ghost predicate PairText(s: string, m: Member)
    decreases m, 0
  {
    exists before, key, middle, value ::
      && s == before + ("\"" + (key + ("\"" + (middle + (":" + value)))))
      && IsSpace(before) && StringText(key, m.key) && IsSpace(middle) && PaddedText(value, m.value)
  }

  ghost predicate PairsText(s: string, members: seq<Member>)
    requires members != []
    decreases members, 0
  {
    if |members| == 1 then PairText(s, members[0])
    else exists head, tail :: s == head + ("," + tail) && PairText(head, members[0]) && PairsText(tail, members[1..])
  }

  // ----- white space -----

  lemma {:induction false} SkipSpace(space: string, s: string)
    requires IsSpace(space)
    ensures SkipWs(space + s) == SkipWs(s)
    decreases |space|
  {
    if space == [] {
      assert space + s == s;
    } else {
      assert (space + s)[1..] == space[1..] + s;
      SkipSpace(space[1..], s);
    }
  }

  lemma {:induction false} SkippedSpace(s: string) returns (space: string)
    ensures s == space + SkipWs(s) && IsSpace(space)
    ensures SkipWs(SkipWs(s)) == SkipWs(s)
    decreases |s|
  {
    space := "";
    if s != [] && IsJsonSpace(s[0]) {
      var more := SkippedSpace(s[1..]);
      space := [s[0]] + more;
    }
  }

  // ----- strings -----

  lemma {:induction false} HexIff(c: char, d: nat)
    ensures IsHex(c, d) <==> HexValue(c) == Some(d)
  {}

  lemma {:induction false} FourDigits(a: nat, b: nat, c: nat, d: nat)
    requires a < 16 && b < 16 && c < 16 && d < 16
    ensures var code := ((a * 16 + b) * 16 + c) * 16 + d;
            HexDigits(code) == (a, b, c, d) && code < 0x10000
  {
    var code := ((a * 16 + b) * 16 + c) * 16 + d;
    assert code / 16 == (a * 16 + b) * 16 + c && code / 256 == a * 16 + b;
  }

  lemma {:induction false} DigitsOfCode(code: nat)
    ensures var (a, b, c, d) := HexDigits(code);
            ((a * 16 + b) * 16 + c) * 16 + d == code
  {
    assert code / 256 == code / 16 / 16 && code / 4096 == code / 256 / 16;
  }

  lemma {:induction false} UnicodeIff(s: string, code: nat)
    requires |s| >= 4
    ensures IsUnicode("\\u" + s[..4], code) <==> Hex4(s) == Some(code)
  {
    hide IsHex, HexValue, HexDigits;
    var (a, b, c, d) := HexDigits(code);
    HexIff(s[0], a);
    HexIff(s[1], b);
    HexIff(s[2], c);
    HexIff(s[3], d);
    DigitsOfCode(code);
    if Hex4(s).Some? {
      FourDigits(HexValue(s[0]).value, HexValue(s[1]).value, HexValue(s[2]).value, HexValue(s[3]).value);
    }
  }

  lemma {:induction false} UnicodeReads(e: string, code: nat, rest: string)
    requires IsUnicode(e, code)
    ensures Hex4(e[2..] + rest) == Some(code) && (e[2..] + rest)[4..] == rest
  {
    hide IsHex, Hex4;
    var s := e[2..] + rest;
    assert "\\u" + s[..4] == e;
    UnicodeIff(s, code);
  }

  lemma {:induction false} PairReads(e: string, c: char, rest: string)
    requires IsPair(e, c)
    ensures ReadEscape(e[1..] + rest) == Some((c, rest))
  {
    hide IsHex, Hex4;
    var v := c as int - 0x10000;
    var s := e[2..] + rest;
    UnicodeReads(e[..6], 0xD800 + v / 0x400, e[6..] + rest);
    assert e[..6][2..] + (e[6..] + rest) == s;
    UnicodeReads(e[6..], 0xDC00 + v % 0x400, rest);
    assert s[4] == '\\' && s[5] == 'u' && s[6..] == e[6..][2..] + rest;
    assert s[10..] == s[6..][4..] == rest;
    assert (e[1..] + rest)[0] == 'u' && (e[1..] + rest)[1..] == s;
    assert v / 0x400 * 0x400 + v % 0x400 == v;
  }

  lemma {:induction false} EscapeReads(e: string, c: char, rest: string)
    requires CharText(e, c) && e[0] == '\\'
    ensures ReadEscape(e[1..] + rest) == Some((c, rest))
  {
    hide IsHex, Hex4;
    var s := e[1..] + rest;
    if IsPair(e, c) {
      PairReads(e, c, rest);
    } else if IsUnicode(e, c as int) {
      UnicodeReads(e, c as int, rest);
      assert s[0] == 'u' && s[1..] == e[2..] + rest;
    } else {
      assert s[0] == e[1] && s[1..] == rest;
    }
  }

  lemma {:induction false} CharShape(e: string, c: char)
    requires CharText(e, c)
    ensures e != [] && (e[0] != '\\' ==> e == [c] && c >= ' ' && c != '"' && c != '\\')
  {}

  lemma {:induction false} CharReads(e: string, c: char, rest: string)
    requires CharText(e, c) && ReadString(rest).Some?
    ensures ReadString(e + rest) == Some(([c] + ReadString(rest).value.0, ReadString(rest).value.1))
  {
    hide CharText, ReadEscape;
    var s := e + rest;
    CharShape(e, c);
    if e[0] == '\\' {
      EscapeReads(e, c, rest);
      assert s[0] == '\\' && s[1..] == e[1..] + rest;
    } else {
      assert s[1..] == rest;
    }
  }

  lemma {:induction false} StringReads(s: string, t: string, rest: string)
    requires StringText(s, t)
    ensures ReadString(s + ("\"" + rest)) == Some((t, rest))
    decreases |t|
  {
    hide CharText, ReadString;
    if t == "" {
      assert s + ("\"" + rest) == "\"" + rest;
      StringEnds(rest);
    } else {
      var head, tail :| s == head + tail && CharText(head, t[0]) && StringText(tail, t[1..]);
      StringReads(tail, t[1..], rest);
      CharReads(head, t[0], tail + ("\"" + rest));
      assert s + ("\"" + rest) == head + (tail + ("\"" + rest));
      assert t == [t[0]] + t[1..];
    }
  }

  lemma {:induction false} StringEnds(rest: string)
    ensures ReadString("\"" + rest) == Some(("", rest))
  {
    assert ("\"" + rest)[1..] == rest;
  }

  lemma {:induction false} PairIs(s: string)
    requires |s| >= 10 && Hex4(s).Some? && s[4] == '\\' && s[5] == 'u' && Hex4(s[6..]).Some?
    requires 0xD800 <= Hex4(s).value < 0xDC00 <= Hex4(s[6..]).value < 0xE000
    ensures var code := 0x10000 + (Hex4(s).value - 0xD800) * 0x400 + (Hex4(s[6..]).value - 0xDC00);
            code < 0x110000 && IsPair("\\u" + s[..10], code as char)
  {
    hide IsHex, Hex4;
    var hi, lo := Hex4(s).value, Hex4(s[6..]).value;
    var v := (hi - 0xD800) * 0x400 + (lo - 0xDC00);
    assert v / 0x400 == hi - 0xD800 && v % 0x400 == lo - 0xDC00;
    UnicodeIff(s, hi);
    UnicodeIff(s[6..], lo);
    var e := "\\u" + s[..10];
    assert e[..6] == "\\u" + s[..4];
    assert e[6..] == "\\u" + s[6..][..4];
  }

  lemma {:induction false} EscapeIs(s: string) returns (e: string)
    requires ReadEscape(s).Some?
    ensures "\\" + s == e + ReadEscape(s).value.1 && CharText(e, ReadEscape(s).value.0)
  {
    hide IsHex, Hex4;
    var rest := s[1..];
    if s[0] != 'u' {
      e := "\\" + s[..1];
    } else if Utf8.IsScalar(Hex4(rest).value) {
      e := "\\u" + rest[..4];
      UnicodeIff(rest, Hex4(rest).value);
      assert "\\" + s == e + rest[4..];
    } else {
      e := "\\u" + rest[..10];
      PairIs(rest);
      assert "\\" + s == e + rest[10..];
    }
  }

  lemma {:induction false} FirstChar(s: string) returns (head: string, rest: string)
    requires ReadString(s).Some? && s[0] != '"'
    ensures s == head + rest && |rest| < |s| && ReadString(rest).Some?
    ensures ReadString(s).value.0 != [] && CharText(head, ReadString(s).value.0[0])
    ensures ReadString(rest).value == (ReadString(s).value.0[1..], ReadString(s).value.1)
  {
    hide CharText, ReadEscape;
    if s[0] == '\\' {
      head := EscapeIs(s[1..]);
      rest := ReadEscape(s[1..]).value.1;
      assert s == "\\" + s[1..];
    } else {
      head, rest := [s[0]], s[1..];
      PlainChar(s[0]);
    }
  }

  lemma {:induction false} StringIs(s: string) returns (body: string)
    requires ReadString(s).Some?
    ensures s == body + ("\"" + ReadString(s).value.1) && StringText(body, ReadString(s).value.0)
    decreases |s|
  {
    if s[0] == '"' {
      body := "";
    } else {
      hide CharText, ReadString;
      var head, rest := FirstChar(s);
      var tail := StringIs(rest);
      body := head + tail;
    }
  }

  lemma {:induction false} PlainChar(c: char)
    requires c >= ' ' && c != '"' && c != '\\'
    ensures CharText([c], c)
  {}

  // ----- numbers -----

  predicate StartsDigit(s: string) {
    s != [] && IsDigit(s[0])
  }

  lemma {:induction false} DigitRunIs(s: string)
    ensures AllDigits(s[..DigitRun(s)])
    ensures DigitRun(s) > 0 <==> StartsDigit(s)
    decreases |s|
  {
    if StartsDigit(s) {
      DigitRunIs(s[1..]);
      var n := DigitRun(s);
      assert s[..n] == [s[0]] + s[1..][..n - 1];
    }
  }

  /** What may follow a value: the end of the text, white space or punctuation. */
  predicate Stops(rest: string) {
    rest == [] || IsJsonSpace(rest[0]) || rest[0] == ',' || rest[0] == ']' || rest[0] == '}'
  }

  lemma {:induction false} FractionReads(f: string, rest: string)
    requires IsFraction(f) && !StartsDigit(rest) && (rest == [] || rest[0] != '.')
    ensures FractionLen(f + rest) == Some(|f|)
  {
    if f == "" {
      assert f + rest == rest;
    } else {
      assert (f + rest)[1..] == f[1..] + rest;
      DigitRunOfDigits(f[1..], rest);
    }
  }

  lemma {:induction false} ExponentReads(e: string, rest: string)
    requires IsExponent(e) && Stops(rest)
    ensures ExponentLen(e + rest) == Some(|e|)
  {
    if e == "" {
      assert e + rest == rest;
    } else {
      var sign := if IsDigits(e[1..]) then 1 else 2;
      assert (e + rest)[sign..] == e[sign..] + rest;
      DigitRunOfDigits(e[sign..], rest);
    }
  }

  lemma {:induction false} WholeReads(w: string, rest: string)
    requires IsWhole(w) && !StartsDigit(rest)
    ensures (if (w + rest)[0] == '0' then 1 else DigitRun(w + rest)) == |w|
  {
    if w != "0" {
      DigitRunOfDigits(w, rest);
    }
  }

  lemma {:induction false} WholeHead(w: string)
    requires IsWhole(w)
    ensures w != [] && IsDigit(w[0])
  {}

  lemma {:induction false} ExponentHead(e: string, rest: string)
    requires IsExponent(e) && Stops(rest)
    ensures var s := e + rest; !StartsDigit(s) && (s == [] || s[0] != '.')
  {
    if e == "" {
      assert e + rest == rest;
    }
  }

  lemma {:induction false} FractionHead(f: string, rest: string)
    requires IsFraction(f) && !StartsDigit(rest)
    ensures !StartsDigit(f + rest)
  {
    if f == "" {
      assert f + rest == rest;
    }
  }

  lemma {:induction false} NumberLenIs(s: string, minus: bool, w: nat, f: nat, e: nat)
    requires minus == (s != [] && s[0] == '-')
    requires var sign := |Sign(minus)|;
             && sign + w + f + e <= |s| && w > 0
             && w == (if s[sign] == '0' then 1 else DigitRun(s[sign..]))
             && FractionLen(s[sign + w..]) == Some(f)
             && ExponentLen(s[sign + w + f..]) == Some(e)
    ensures NumberLen(s) == Some(|Sign(minus)| + w + f + e)
  {
    hide DigitRun, FractionLen, ExponentLen;
  }

  lemma {:induction false} ThreeDrops(a: string, b: string, c: string, d: string)
    ensures var s := a + (b + (c + d));
            s[|a|..] == b + (c + d) && s[|a| + |b|..] == c + d && s[|a| + |b| + |c|..] == d
  {
    var s, t, u := a + (b + (c + d)), b + (c + d), c + d;
    assert s[|a|..] == t;
    assert t[|b|..] == u;
    assert s[|a| + |b|..] == s[|a|..][|b|..];
    assert u[|c|..] == d;
    assert s[|a| + |b| + |c|..] == s[|a| + |b|..][|c|..];
  }

  lemma {:induction false} PartLens(whole: string, fraction: string, exponent: string, rest: string)
    requires IsWhole(whole) && IsFraction(fraction) && IsExponent(exponent) && Stops(rest)
    ensures whole != [] && IsDigit(whole[0])
    ensures var after := exponent + rest;
            var tail := fraction + after;
            && (if whole[0] == '0' then 1 else DigitRun(whole + tail)) == |whole|
            && FractionLen(tail) == Some(|fraction|)
            && ExponentLen(after) == Some(|exponent|)
  {
    hide DigitRun, FractionLen, ExponentLen, IsWhole, IsFraction, IsExponent, Stops, AllDigits;
    var after := exponent + rest;
    ExponentHead(exponent, rest);
    FractionHead(fraction, after);
    WholeHead(whole);
    WholeReads(whole, fraction + after);
    FractionReads(fraction, after);
    ExponentReads(exponent, rest);
  }

  lemma {:induction false} PartsRead(minus: bool, whole: string, fraction: string, exponent: string, rest: string)
    requires IsWhole(whole) && IsFraction(fraction) && IsExponent(exponent) && Stops(rest)
    ensures var t := Sign(minus) + (whole + (fraction + (exponent + rest)));
            && NumberLen(t) == Some(|Sign(minus)| + |whole| + |fraction| + |exponent|)
            && (t[0] == '-' || IsDigit(t[0]))
  {
    hide DigitRun, FractionLen, ExponentLen, NumberLen, IsWhole, IsFraction, IsExponent, Stops;
    PartLens(whole, fraction, exponent, rest);
    ThreeDrops(Sign(minus), whole, fraction, exponent + rest);
    var t := Sign(minus) + (whole + (fraction + (exponent + rest)));
    assert t[|Sign(minus)|] == whole[0];
    NumberLenIs(t, minus, |whole|, |fraction|, |exponent|);
  }

  lemma {:induction false} NumberReads(s: string, rest: string)
    requires IsNumber(s) && Stops(rest)
    ensures NumberLen(s + rest) == Some(|s|) && (s[0] == '-' || IsDigit(s[0]))
  {
    hide NumberLen, IsWhole, IsFraction, IsExponent, Stops;
    var minus, whole, fraction, exponent :| AreParts(s, minus, whole, fraction, exponent);
    PartsRead(minus, whole, fraction, exponent, rest);
    assert s + rest == Sign(minus) + (whole + (fraction + (exponent + rest)));
    WholeHead(whole);
    assert s[0] == (s + rest)[0];
  }

  lemma {:induction false} FractionIs(s: string)
    requires FractionLen(s).Some?
    ensures IsFraction(s[..FractionLen(s).value])
  {
    if s != [] && s[0] == '.' {
      DigitRunIs(s[1..]);
      var n := DigitRun(s[1..]);
      assert s[..n + 1][1..] == s[1..][..n];
    }
  }

  lemma {:induction false} ExponentIs(s: string)
    requires ExponentLen(s).Some?
    ensures IsExponent(s[..ExponentLen(s).value])
  {
    if ExponentLen(s).value > 0 {
      var sign := if |s| > 1 && (s[1] == '+' || s[1] == '-') then 2 else 1;
      DigitRunIs(s[sign..]);
      var n := DigitRun(s[sign..]);
      assert s[..n + sign][sign..] == s[sign..][..n];
    }
  }

  lemma {:induction false} WholeIs(s: string)
    requires s != [] && (s[0] == '0' || DigitRun(s) > 0)
    ensures var w := if s[0] == '0' then 1 else DigitRun(s); IsWhole(s[..w])
  {
    DigitRunIs(s);
  }

  lemma {:induction false} NumberLenParts(s: string) returns (minus: bool, w: nat, f: nat, e: nat)
    requires NumberLen(s).Some?
    ensures minus == (s != [] && s[0] == '-')
    ensures var sign := |Sign(minus)|;
            && NumberLen(s).value == sign + w + f + e
            && w > 0 && sign < |s| && w == (if s[sign] == '0' then 1 else DigitRun(s[sign..]))
            && FractionLen(s[sign + w..]) == Some(f)
            && ExponentLen(s[sign + w + f..]) == Some(e)
  {
    hide DigitRun, FractionLen, ExponentLen;
    minus := s != [] && s[0] == '-';
    var sign := |Sign(minus)|;
    w := if s[sign] == '0' then 1 else DigitRun(s[sign..]);
    f := FractionLen(s[sign + w..]).value;
    e := ExponentLen(s[sign + w + f..]).value;
  }

  lemma {:induction false} TwoSlices(s: string, a: nat, b: nat)
    requires a + b <= |s|
    ensures s[..a + b] == s[..a] + s[a..][..b]
  {}

  lemma {:induction false} FourSlices(s: string, a: nat, b: nat, c: nat, d: nat)
    requires a + b + c + d <= |s|
    ensures s[..a + b + c + d] == s[..a] + (s[a..][..b] + (s[a + b..][..c] + s[a + b + c..][..d]))
  {
    TwoSlices(s, a, b);
    TwoSlices(s, a + b, c);
    TwoSlices(s, a + b + c, d);
    Regroup(s[..a], s[a..][..b], s[a + b..][..c], s[a + b + c..][..d]);
  }

  lemma {:induction false} Regroup(a: string, b: string, c: string, d: string)
    ensures a + b + c + d == a + (b + (c + d))
  {
    Assoc(b, c, d);
    Assoc(a, b, c + d);
    Assoc(a + b, c, d);
  }

  lemma {:induction false} Assoc(a: string, b: string, c: string)
    ensures a + b + c == a + (b + c)
  {}

  lemma {:induction false} NumberIs(s: string)
    requires NumberLen(s).Some?
    ensures IsNumber(s[..NumberLen(s).value])
  {
    hide DigitRun, FractionLen, ExponentLen, NumberLen, IsWhole, IsFraction, IsExponent;
    var minus, w, f, e := NumberLenParts(s);
    var a := |Sign(minus)|;
    WholeIs(s[a..]);
    FractionIs(s[a + w..]);
    ExponentIs(s[a + w + f..]);
    FourSlices(s, a, w, f, e);
    assert s[..a] == Sign(minus);
    var number, whole, fraction, exponent := s[..NumberLen(s).value], s[a..][..w], s[a + w..][..f], s[a + w + f..][..e];
    PartsAre(number, minus, whole, fraction, exponent);
  }

  lemma {:induction false} PartsAre(s: string, minus: bool, whole: string, fraction: string, exponent: string)
    requires AreParts(s, minus, whole, fraction, exponent)
    ensures IsNumber(s)
  {}

  // ----- the reader accepts the grammar -----

  lemma {:induction false} ValueHead(t: string, v: Value)
    requires ValueText(t, v)
    ensures t != [] && !IsJsonSpace(t[0])
  {
    hide ItemsText, PairsText, StringText;
    if v.Number? {
      NumberReads(t, "");
    }
  }

  lemma {:induction false} ReadSkips(space: string, s: string)
    requires IsSpace(space)
    ensures ReadValue(space + s) == ReadValue(s)
    ensures ReadElements(space + s) == ReadElements(s)
    ensures ReadMember(space + s) == ReadMember(s)
    ensures ReadMembers(space + s) == ReadMembers(s)
  {
    SkipSpace(space, s);
    hide SkipWs, ReadString, ReadLiteral, NumberLen;
    ReadValueSkips(space + s, s);
    hide ReadValue;
    assert ReadMember(space + s) == ReadMember(s);
  }

  lemma {:induction false} ReadValueSkips(s: string, t: string)
    requires SkipWs(s) == SkipWs(t)
    ensures ReadValue(s) == ReadValue(t)
  {
    hide SkipWs, ReadString, ReadLiteral, NumberLen, ReadElements, ReadMembers;
  }

  /** Reading a value of the grammar, whatever stops it, ends where it ends. */
  lemma {:induction false} ValueReads(t: string, v: Value, rest: string)
    requires ValueText(t, v) && Stops(rest)
    ensures ReadValue(t + rest) == Some((v, rest))
    decreases v, 0
  {
    var s := t + rest;
    ValueHead(t, v);
    match v
    case Null => LiteralReads(t, v, rest);
    case Bool(b) => LiteralReads(t, v, rest);
    case Number(lexeme) => LexemeReads(lexeme, rest);
    case Str(str) =>
      var body :| t == "\"" + (body + "\"") && StringText(body, str);
      StringReads(body, str, rest);
      QuotedReads(t, body, str, rest);
    case Array(items) =>
      var inner :| t == "[" + (inner + "]") && if items == [] then IsSpace(inner) else ItemsText(inner, items);
      if items != [] {
        ItemsRead(inner, items, rest);
      }
      ArrayReads(t, inner, items, rest);
    case Object(members) =>
      var inner :| t == "{" + (inner + "}") && if members == [] then IsSpace(inner) else PairsText(inner, members);
      if members != [] {
        PairsRead(inner, members, rest);
      }
      ObjectReads(t, inner, members, rest);
  }

  lemma {:induction false} LiteralReads(t: string, v: Value, rest: string)
    requires (v.Null? || v.Bool?) && ValueText(t, v)
    ensures ReadValue(t + rest) == Some((v, rest))
  {
    hide ReadString, ReadElements, ReadMembers, NumberLen;
    var s := t + rest;
    assert s[0] == t[0] && t <= s && s[|t|..] == rest;
  }

  lemma {:induction false} LexemeReads(t: string, rest: string)
    requires IsNumber(t) && Stops(rest)
    ensures ReadValue(t + rest) == Some((Number(t), rest))
  {
    hide NumberLen, IsNumber, ReadValue;
    NumberReads(t, rest);
    var s := t + rest;
    LexemeRead(s, |t|);
    assert s[..|t|] == t && s[|t|..] == rest;
  }

  lemma {:induction false} LexemeRead(s: string, n: nat)
    requires s != [] && (s[0] == '-' || IsDigit(s[0])) && NumberLen(s) == Some(n)
    ensures ReadValue(s) == Some((Number(s[..n]), s[n..]))
  {
    hide ReadString, ReadElements, ReadMembers, NumberLen, ReadLiteral;
  }

  lemma {:induction false} QuotedReads(t: string, body: string, str: string, rest: string)
    requires t == "\"" + (body + "\"") && ReadString(body + ("\"" + rest)) == Some((str, rest))
    ensures ReadValue(t + rest) == Some((Str(str), rest))
  {
    hide ReadString, ReadElements, ReadMembers, NumberLen, ReadLiteral;
    var s := t + rest;
    assert s[0] == '"' && s[1..] == body + ("\"" + rest);
  }

  /** A closing bracket starts no value and no member. */
  lemma {:induction false} NothingRead(s: string)
    requires s != [] && (s[0] == ']' || s[0] == '}')
    ensures ReadElements(s).None? && ReadMembers(s).None?
  {
    assert DigitRun(s) == 0 && SkipWs(s) == s;
  }

  lemma {:induction false} ArrayReads(t: string, inner: string, items: seq<Value>, rest: string)
    requires t == "[" + (inner + "]")
    requires if items == [] then IsSpace(inner) else ReadElements(inner + ("]" + rest)) == Some((items, rest))
    ensures ReadValue(t + rest) == Some((Array(items), rest))
  {
    hide ReadString, ReadElements, ReadMembers, NumberLen, ReadLiteral;
    var s, tail := t + rest, inner + ("]" + rest);
    assert s[0] == '[' && s[1..] == tail;
    if items == [] {
      SkipSpace(inner, "]" + rest);
      assert ("]" + rest)[1..] == rest;
    } else {
      var space := SkippedSpace(tail);
      var u := SkipWs(tail);
      ReadSkips(space, u);
      if u != [] && u[0] == ']' {
        NothingRead(u);
      }
    }
  }

  lemma {:induction false} ObjectReads(t: string, inner: string, members: seq<Member>, rest: string)
    requires t == "{" + (inner + "}")
    requires if members == [] then IsSpace(inner) else ReadMembers(inner + ("}" + rest)) == Some((members, rest))
    ensures ReadValue(t + rest) == Some((Object(members), rest))
  {
    hide ReadString, ReadElements, ReadMembers, NumberLen, ReadLiteral;
    var s, tail := t + rest, inner + ("}" + rest);
    assert s[0] == '{' && s[1..] == tail;
    if members == [] {
      SkipSpace(inner, "}" + rest);
      assert ("}" + rest)[1..] == rest;
    } else {
      var space := SkippedSpace(tail);
      var u := SkipWs(tail);
      ReadSkips(space, u);
      if u != [] && u[0] == '}' {
        NothingRead(u);
      }
    }
  }

  /** A padded value reads up to the mark after it. */
  lemma {:induction false} PaddedReads(s: string, v: Value, mark: char, rest: string)
    requires PaddedText(s, v) && (mark == ',' || mark == ']' || mark == '}')
    ensures ReadValue(s + ([mark] + rest)).Some?
    ensures var (w, after) := ReadValue(s + ([mark] + rest)).value;
            w == v && SkipWs(after) == [mark] + rest
    decreases v, 1
  {
    hide ReadValue, ValueText;
    var before, t, space :| s == before + (t + space) && IsSpace(before) && ValueText(t, v) && IsSpace(space);
    var after := space + ([mark] + rest);
    assert Stops(after);
    ValueReads(t, v, after);
    ReadSkips(before, t + after);
    Assoc(t, space, [mark] + rest);
    Assoc(before, t + space, [mark] + rest);
    SkipSpace(space, [mark] + rest);
  }

  lemma {:induction false} ItemsRead(s: string, items: seq<Value>, rest: string)
    requires items != [] && ItemsText(s, items)
    ensures ReadElements(s + ("]" + rest)) == Some((items, rest))
    decreases items, 0
  {
    hide ReadValue, PaddedText, SkipWs;
    if |items| == 1 {
      assert items == [items[0]] && "]" == [']'];
      PaddedReads(s, items[0], ']', rest);
      assert ("]" + rest)[1..] == rest;
    } else {
      var head, tail :| s == head + ("," + tail) && PaddedText(head, items[0]) && ItemsText(tail, items[1..]);
      ItemsRead(tail, items[1..], rest);
      var more := tail + ("]" + rest);
      PaddedReads(head, items[0], ',', more);
      hide ItemsText, ReadElements;
      ItemsStep(head + ("," + more), items[0], more, items[1..], rest);
      assert s + ("]" + rest) == head + ("," + more);
      assert items == [items[0]] + items[1..];
    }
  }

  lemma {:induction false} ItemsStep(s: string, v: Value, more: string, items: seq<Value>, rest: string)
    requires ReadValue(s).Some? && ReadValue(s).value.0 == v && SkipWs(ReadValue(s).value.1) == "," + more
    requires ReadElements(more) == Some((items, rest))
    ensures ReadElements(s) == Some(([v] + items, rest))
  {
    hide ReadValue, SkipWs;
    assert ("," + more)[1..] == more;
  }

  lemma {:induction false} PairReadsUpTo(s: string, m: Member, mark: char, rest: string)
    requires PairText(s, m) && (mark == ',' || mark == ']' || mark == '}')
    ensures ReadMember(s + ([mark] + rest)).Some?
    ensures var (w, after) := ReadMember(s + ([mark] + rest)).value;
            w == m && SkipWs(after) == [mark] + rest
    decreases m, 0
  {
    hide ReadValue, PaddedText, SkipWs, StringText, ReadString, ReadMember;
    var before, key, middle, value :|
      && s == before + ("\"" + (key + ("\"" + (middle + (":" + value)))))
      && IsSpace(before) && StringText(key, m.key) && IsSpace(middle) && PaddedText(value, m.value);
    var end := value + ([mark] + rest);
    PaddedReads(value, m.value, mark, rest);
    var after := middle + (":" + end);
    SkipSpace(middle, ":" + end);
    SkipColon(end);
    StringReads(key, m.key, after);
    MemberStep(key + ("\"" + after), m.key, after, end);
    ReadSkips(before, "\"" + (key + ("\"" + after)));
    var tail := [mark] + rest;
    Assoc(before, "\"" + (key + ("\"" + (middle + (":" + value)))), tail);
    Assoc("\"", key + ("\"" + (middle + (":" + value))), tail);
    Assoc(key, "\"" + (middle + (":" + value)), tail);
    Assoc("\"", middle + (":" + value), tail);
    Assoc(middle, ":" + value, tail);
    Assoc(":", value, tail);
  }

  lemma {:induction false} SkipColon(s: string)
    ensures SkipWs(":" + s) == ":" + s
  {}

  lemma {:induction false} MemberStep(s: string, key: string, after: string, end: string)
    requires ReadString(s) == Some((key, after)) && SkipWs(after) == ":" + end && ReadValue(end).Some?
    ensures ReadMember("\"" + s) == Some((Member(key, ReadValue(end).value.0), ReadValue(end).value.1))
  {
    var t := "\"" + s;
    assert t[0] == '"' && t[1..] == s && SkipWs(t) == t;
    hide ReadString, ReadValue, SkipWs;
    assert (":" + end)[1..] == end;
  }

  lemma {:induction false} PairsRead(s: string, members: seq<Member>, rest: string)
    requires members != [] && PairsText(s, members)
    ensures ReadMembers(s + ("}" + rest)) == Some((members, rest))
    decreases members, 0
  {
    hide ReadMember, PairText, SkipWs;
    if |members| == 1 {
      assert members == [members[0]] && "}" == ['}'];
      PairReadsUpTo(s, members[0], '}', rest);
      assert ("}" + rest)[1..] == rest;
    } else {
      var head, tail :| s == head + ("," + tail) && PairText(head, members[0]) && PairsText(tail, members[1..]);
      PairsRead(tail, members[1..], rest);
      var more := tail + ("}" + rest);
      PairReadsUpTo(head, members[0], ',', more);
      hide PairsText, ReadMembers;
      PairsStep(head + ("," + more), members[0], more, members[1..], rest);
      assert s + ("}" + rest) == head + ("," + more);
      assert members == [members[0]] + members[1..];
    }
  }

  lemma {:induction false} PairsStep(s: string, m: Member, more: string, members: seq<Member>, rest: string)
    requires ReadMember(s).Some? && ReadMember(s).value.0 == m && SkipWs(ReadMember(s).value.1) == "," + more
    requires ReadMembers(more) == Some((members, rest))
    ensures ReadMembers(s) == Some(([m] + members, rest))
  {
    hide ReadMember, SkipWs;
    assert ("," + more)[1..] == more;
  }

  // ----- whatever the reader accepts is in the grammar -----

  lemma {:induction false} MakePadded(before: string, t: string, after: string, v: Value)
    requires IsSpace(before) && ValueText(t, v) && IsSpace(after)
    ensures PaddedText(before + (t + after), v)
  {
    hide ValueText;
  }

  lemma {:induction false} SpaceConcat(a: string, b: string)
    requires IsSpace(a) && IsSpace(b)
    ensures IsSpace(a + b)
  {}

  lemma {:induction false} LeadPadded(space: string, s: string, v: Value)
    requires IsSpace(space) && PaddedText(s, v)
    ensures PaddedText(space + s, v)
  {
    hide ValueText;
    var before, t, after :| s == before + (t + after) && IsSpace(before) && ValueText(t, v) && IsSpace(after);
    SpaceConcat(space, before);
    MakePadded(space + before, t, after, v);
    Assoc(space, before, t + after);
  }

  lemma {:induction false} LeadItems(space: string, s: string, items: seq<Value>)
    requires IsSpace(space) && items != [] && ItemsText(s, items)
    ensures ItemsText(space + s, items)
  {
    hide PaddedText;
    if |items| == 1 {
      LeadPadded(space, s, items[0]);
    } else {
      var head, tail :| s == head + ("," + tail) && PaddedText(head, items[0]) && ItemsText(tail, items[1..]);
      LeadPadded(space, head, items[0]);
      Assoc(space, head, "," + tail);
    }
  }

  lemma {:induction false} MakePair(before: string, key: string, middle: string, value: string, m: Member)
    requires IsSpace(before) && StringText(key, m.key) && IsSpace(middle) && PaddedText(value, m.value)
    ensures PairText(before + ("\"" + (key + ("\"" + (middle + (":" + value))))), m)
  {
    hide StringText, PaddedText;
  }

  lemma {:induction false} LeadPair(space: string, s: string, m: Member)
    requires IsSpace(space) && PairText(s, m)
    ensures PairText(space + s, m)
  {
    hide StringText, PaddedText;
    var before, key, middle, value :|
      && s == before + ("\"" + (key + ("\"" + (middle + (":" + value)))))
      && IsSpace(before) && StringText(key, m.key) && IsSpace(middle) && PaddedText(value, m.value);
    SpaceConcat(space, before);
    MakePair(space + before, key, middle, value, m);
    Assoc(space, before, "\"" + (key + ("\"" + (middle + (":" + value)))));
  }

  lemma {:induction false} LeadPairs(space: string, s: string, members: seq<Member>)
    requires IsSpace(space) && members != [] && PairsText(s, members)
    ensures PairsText(space + s, members)
  {
    hide PairText;
    if |members| == 1 {
      LeadPair(space, s, members[0]);
    } else {
      var head, tail :| s == head + ("," + tail) && PairText(head, members[0]) && PairsText(tail, members[1..]);
      LeadPair(space, head, members[0]);
      Assoc(space, head, "," + tail);
    }
  }

  /** What is read as a value is white space and a text of the value, up to what is left. */
  lemma {:induction false} ValueIs(s: string) returns (before: string, t: string)
    requires ReadValue(s).Some?
    ensures s == before + (t + ReadValue(s).value.1)
    ensures IsSpace(before) && ValueText(t, ReadValue(s).value.0)
    decreases |s|, 1
  {
    before := SkippedSpace(s);
    var u := SkipWs(s);
    if u[0] == '"' {
      t := QuotedIs(s, u);
    } else if u[0] == '[' {
      t := ArrayIs(s, u);
    } else if u[0] == '{' {
      t := ObjectIs(s, u);
    } else {
      t := WordIs(s, u);
    }
  }

  lemma {:induction false} QuotedIs(s: string, u: string) returns (t: string)
    requires ReadValue(s).Some? && u == SkipWs(s) && u != [] && u[0] == '"'
    ensures u == t + ReadValue(s).value.1 && ValueText(t, ReadValue(s).value.0)
  {
    hide ReadString, StringText;
    var body := StringIs(u[1..]);
    t := "\"" + (body + "\"");
    var rest := ReadValue(s).value.1;
    Assoc(body, "\"", rest);
    Assoc("\"", body + "\"", rest);
    assert u == "\"" + u[1..];
  }

  lemma {:induction false} WordIs(s: string, u: string) returns (t: string)
    requires ReadValue(s).Some? && u == SkipWs(s) && u != [] && u[0] != '"' && u[0] != '[' && u[0] != '{'
    ensures u == t + ReadValue(s).value.1 && ValueText(t, ReadValue(s).value.0)
  {
    hide NumberLen, IsNumber, ReadString, ReadElements, ReadMembers;
    var rest := ReadValue(s).value.1;
    t := u[..|u| - |rest|];
    if u[0] != 'n' && u[0] != 't' && u[0] != 'f' {
      NumberIs(u);
    }
  }

  lemma {:induction false} ArrayIs(s: string, u: string) returns (t: string)
    requires ReadValue(s).Some? && u == SkipWs(s) && u != [] && u[0] == '['
    ensures u == t + ReadValue(s).value.1 && ValueText(t, ReadValue(s).value.0)
    decreases |s|, 0
  {
    hide ReadElements, ReadMembers, ReadString, NumberLen, ItemsText;
    var space := SkippedSpace(u[1..]);
    var w := SkipWs(u[1..]);
    var (v, rest) := ReadValue(s).value;
    var inner;
    if w[0] == ']' {
      inner := space;
      assert w == "]" + rest;
    } else {
      var more := ItemsAre(w);
      inner := space + more;
      LeadItems(space, more, v.items);
      Assoc(space, more, "]" + rest);
    }
    t := "[" + (inner + "]");
    Assoc(inner, "]", rest);
    Assoc("[", inner + "]", rest);
    assert u == "[" + u[1..];
  }

  lemma {:induction false} ItemsAre(s: string) returns (inner: string)
    requires ReadElements(s).Some?
    ensures ReadElements(s).value.0 != []
    ensures s == inner + ("]" + ReadElements(s).value.1) && ItemsText(inner, ReadElements(s).value.0)
    decreases |s|, 2
  {
    hide ReadValue, SkipWs, ValueText;
    var (v, after) := ReadValue(s).value;
    var before, t := ValueIs(s);
    var space := SkippedSpace(after);
    var u := SkipWs(after);
    var (items, rest) := ReadElements(s).value;
    var head := before + (t + space);
    MakePadded(before, t, space, v);
    Assoc(t, space, u);
    Assoc(before, t + space, u);
    if u[0] == ']' {
      inner := head;
      assert u == "]" + rest;
    } else {
      var tail := ItemsAre(u[1..]);
      inner := head + ("," + tail);
      MakeItems(head, v, tail, items[1..]);
      assert items == [v] + items[1..];
      assert u == "," + u[1..];
      Assoc(",", tail, "]" + rest);
      Assoc(head, "," + tail, "]" + rest);
    }
  }

  lemma {:induction false} MakeItems(head: string, v: Value, tail: string, items: seq<Value>)
    requires items != [] && PaddedText(head, v) && ItemsText(tail, items)
    ensures ItemsText(head + ("," + tail), [v] + items)
  {
    hide PaddedText;
    var all := [v] + items;
    assert all[1..] == items;
    assert PaddedText(head, all[0]) && ItemsText(tail, all[1..]);
  }

  lemma {:induction false} ObjectIs(s: string, u: string) returns (t: string)
    requires ReadValue(s).Some? && u == SkipWs(s) && u != [] && u[0] == '{'
    ensures u == t + ReadValue(s).value.1 && ValueText(t, ReadValue(s).value.0)
    decreases |s|, 0
  {
    hide ReadElements, ReadMembers, ReadString, NumberLen, PairsText;
    var space := SkippedSpace(u[1..]);
    var w := SkipWs(u[1..]);
    var (v, rest) := ReadValue(s).value;
    var inner;
    if w[0] == '}' {
      inner := space;
      assert w == "}" + rest;
    } else {
      var more := PairsAre(w);
      inner := space + more;
      LeadPairs(space, more, v.members);
      Assoc(space, more, "}" + rest);
    }
    t := "{" + (inner + "}");
    Assoc(inner, "}", rest);
    Assoc("{", inner + "}", rest);
    assert u == "{" + u[1..];
  }

  /** A member is read up to what is left, with the white space before that taken in. */
  lemma {:induction false} PairIsRead(s: string) returns (head: string)
    requires ReadMember(s).Some?
    ensures s == head + SkipWs(ReadMember(s).value.1) && PairText(head, ReadMember(s).value.0)
    decreases |s|, 2
  {
    hide ReadValue, SkipWs, ValueText, ReadString, StringText, PairText;
    var before := SkippedSpace(s);
    var t := SkipWs(s);
    var (m, rest) := ReadMember(s).value;
    var key := StringIs(t[1..]);
    var after := ReadString(t[1..]).value.1;
    var middle := SkippedSpace(after);
    var u := SkipWs(after);
    var space, text := ValueIs(u[1..]);
    var last := SkippedSpace(rest);
    var end := SkipWs(rest);
    var value := space + (text + last);
    MakePadded(space, text, last, m.value);
    MakePair(before, key, middle, value, m);
    head := before + ("\"" + (key + ("\"" + (middle + (":" + value)))));
    assert t == "\"" + t[1..] && u == ":" + u[1..];
    Assoc(text, last, end);
    Assoc(space, text + last, end);
    PairAssoc(before, key, middle, value, end);
  }

  lemma {:induction false} PairAssoc(before: string, key: string, middle: string, value: string, end: string)
    ensures before + ("\"" + (key + ("\"" + (middle + (":" + value))))) + end
         == before + ("\"" + (key + ("\"" + (middle + (":" + (value + end))))))
  {
    Assoc(before, "\"" + (key + ("\"" + (middle + (":" + value)))), end);
    Assoc("\"", key + ("\"" + (middle + (":" + value))), end);
    Assoc(key, "\"" + (middle + (":" + value)), end);
    Assoc("\"", middle + (":" + value), end);
    Assoc(middle, ":" + value, end);
    Assoc(":", value, end);
  }

  lemma {:induction false} PairsAre(s: string) returns (inner: string)
    requires ReadMembers(s).Some?
    ensures ReadMembers(s).value.0 != []
    ensures s == inner + ("}" + ReadMembers(s).value.1) && PairsText(inner, ReadMembers(s).value.0)
    decreases |s|, 3
  {
    hide ReadMember, SkipWs, PairText;
    var (m, after) := ReadMember(s).value;
    var head := PairIsRead(s);
    var u := SkipWs(after);
    var (members, rest) := ReadMembers(s).value;
    if u[0] == '}' {
      inner := head;
      assert u == "}" + rest;
    } else {
      var tail := PairsAre(u[1..]);
      inner := head + ("," + tail);
      MakePairs(head, m, tail, members[1..]);
      assert members == [m] + members[1..];
      assert u == "," + u[1..];
      Assoc(",", tail, "}" + rest);
      Assoc(head, "," + tail, "}" + rest);
    }
  }

  lemma {:induction false} MakePairs(head: string, m: Member, tail: string, members: seq<Member>)
    requires members != [] && PairText(head, m) && PairsText(tail, members)
    ensures PairsText(head + ("," + tail), [m] + members)
  {
    hide PairText;
    var all := [m] + members;
    assert all[1..] == members;
    assert PairText(head, all[0]) && PairsText(tail, all[1..]);
  }

  // ----- documents -----

  /** The reader accepts exactly the texts of the grammar, each with its own value. */
  lemma {:induction false} ReadDocumentIff(s: string, v: Value)
    ensures ReadDocument(s) == Some(v) <==> PaddedText(s, v)
  {
    hide ReadValue, ValueText, SkipWs;
    if ReadDocument(s) == Some(v) {
      var before, t := ValueIs(s);
      var rest := ReadValue(s).value.1;
      var after := SkippedSpace(rest);
      assert after + [] == after;
      MakePadded(before, t, after, v);
    }
    if before, t, after :| s == before + (t + after) && IsSpace(before) && ValueText(t, v) && IsSpace(after) {
      ValueReads(t, v, after);
      ReadSkips(before, t + after);
      SkipSpace(after, "");
      SkipEmpty();
      assert after + "" == after;
    }
  }

  lemma {:induction false} SkipEmpty()
    ensures SkipWs("") == ""
  {}

  // ----- what is printed is in the grammar -----

  /** An escaped character is a text of the character, of one, two or six characters as the printer has a short form. */
  lemma {:induction false} EscapeCharIs(style: Style, c: char)
    ensures var e, v := EscapeChar(style, c), c as int;
            && CharText(e, c)
            && (|e| == 1 <==> v >= 0x20 && v != 0x22 && v != 0x5C)
            && (|e| == 2 <==> v == 0x22 || v == 0x5C || v == 9 || v == 10 || v == 13 || (style.Serde? && (v == 8 || v == 12)))
            && (|e| == 6 <==> |e| > 2)
  {
    var e, v := EscapeChar(style, c), c as int;
    if |e| > 2 {
      assert v / 16 < 2 && v % 16 < 16 && HexDigits(v) == (0, 0, v / 16, v % 16);
      assert e[2] == '0' && e[3] == '0' && e[4] == HexDigit(v / 16) && e[5] == HexDigit(v % 16);
      HexDigitIs(v / 16);
      HexDigitIs(v % 16);
      assert IsUnicode(e, v);
    }
  }

  lemma {:induction false} HexDigitIs(d: nat)
    requires d < 16
    ensures IsHex(HexDigit(d), d)
  {}

  lemma {:induction false} EscapeIsText(style: Style, s: string)
    ensures StringText(Escape(style, s), s)
  {
    hide CharText, EscapeChar;
    if s != "" {
      EscapeCharIs(style, s[0]);
      EscapeIsText(style, s[1..]);
    }
  }
}
