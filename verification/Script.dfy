/** `.coh` scripts of apps/cohsh/src/lib.rs: reading lines, validating and tokenising. */
module Script {
  import opened Outcome
  import Text

  const MAX_SCRIPT_LINES: nat := 256
  const MAX_SCRIPT_WAIT_MS: nat := 2000
  const U64_MAX: nat := 0xFFFF_FFFF_FFFF_FFFF

  const EXPECT := "EXPECT"
  const WAIT := "WAIT"
  const SUBSTR := "SUBSTR"
  const NOT := "NOT"

  datatype ScriptLine = ScriptLine(number: nat, text: string)

  datatype Reason =
    | TooManyLines
    | ExpectWithoutCommand
    | SelectorMissing
    | SubstrMissing
    | NotMissing
    | SelectorInvalid
    | WaitMissing
    | WaitExtra
    | WaitNotNumeric
    | WaitTooLong

  datatype ScriptError = ScriptError(number: nat, text: string, reason: Reason)

  datatype Selector = ExpectOk | ExpectErr | Substr(needle: string) | Not(needle: string)

  // ----- directives -----

  /** `strip_prefix(p).unwrap_or(s).trim_start()`. */
  function After(s: string, p: string): string {
    Text.TrimStart(if p <= s then s[|p|..] else s)
  }

  function ParseSelector(rest: string): Result<Selector, Reason> {
    if rest == "" then Err(SelectorMissing)
    else if rest == "OK" then Ok(ExpectOk)
    else if rest == "ERR" then Ok(ExpectErr)
    else if SUBSTR <= rest then
      var needle := Text.TrimStart(rest[|SUBSTR|..]);
      if needle == "" then Err(SubstrMissing) else Ok(Substr(needle))
    else if NOT <= rest then
      var needle := Text.TrimStart(rest[|NOT|..]);
      if needle == "" then Err(NotMissing) else Ok(Not(needle))
    else Err(SelectorInvalid)
  }

  function SelectorText(s: Selector): string {
    match s
    case ExpectOk => "OK"
    case ExpectErr => "ERR"
    case Substr(needle) => SUBSTR + " " + needle
    case Not(needle) => NOT + " " + needle
  }

  function ParseWait(text: string): Result<nat, Reason> {
    var args := Text.Words(After(text, WAIT));
    if args == [] then Err(WaitMissing)
    else if |args| > 1 then Err(WaitExtra)
    else
      match Text.ParseUnsigned(args[0], U64_MAX)
      case None => Err(WaitNotNumeric)
      case Some(millis) => if millis > MAX_SCRIPT_WAIT_MS then Err(WaitTooLong) else Ok(millis)
  }

  function Keyword(text: string): Option<string> {
    var words := Text.Words(text);
    if words == [] then None else Some(words[0])
  }

  predicate IsCommand(text: string) {
    Keyword(text) != None && Keyword(text) != Some(EXPECT) && Keyword(text) != Some(WAIT)
  }

  /** One line's token: a command as it is, a directive rendered in its normal form. */
  function Token(text: string, commandSeen: bool): Result<string, Reason> {
    if Keyword(text) == Some(EXPECT) then
      if !commandSeen then Err(ExpectWithoutCommand)
      else
        var selector :- ParseSelector(After(text, EXPECT));
        Ok(EXPECT + " " + SelectorText(selector))
    else if Keyword(text) == Some(WAIT) then
      var millis :- ParseWait(text);
      Ok(WAIT + " " + Text.Decimal(millis))
    else Ok(text)
  }

  // ----- lines -----

  /** What is left of a raw line: no comment, no surrounding blanks. */
  function Content(raw: string): string {
    var trimmed := Text.TrimEnd(raw);
    var split := Text.SplitOnce(trimmed, '#');
    Text.Trim(if split.Some? then split.value.0 else trimmed)
  }

  function Gather(lines: seq<string>, idx: nat, taken: seq<ScriptLine>): Result<seq<ScriptLine>, ScriptError>
    requires idx <= |lines|
    decreases |lines| - idx
  {
    if idx == |lines| then Ok(taken)
    else
      var text := Content(lines[idx]);
      if text == "" then Gather(lines, idx + 1, taken)
      else
        var more := taken + [ScriptLine(idx + 1, text)];
        if |more| > MAX_SCRIPT_LINES then Err(ScriptError(idx + 1, text, TooManyLines))
        else Gather(lines, idx + 1, more)
  }

  function ScriptLines(script: string): Result<seq<ScriptLine>, ScriptError> {
    Gather(Text.Lines(script), 0, [])
  }

  function Tokens(lines: seq<ScriptLine>, commandSeen: bool): Result<seq<string>, ScriptError>
    decreases |lines|
  {
    if lines == [] then Ok([])
    else
      var entry := lines[0];
      if Keyword(entry.text) == None then Tokens(lines[1..], commandSeen)
      else
        match Token(entry.text, commandSeen)
        case Err(reason) => Err(ScriptError(entry.number, entry.text, reason))
        case Ok(token) =>
          var rest :- Tokens(lines[1..], commandSeen || IsCommand(entry.text));
          Ok([token] + rest)
  }

  /** The tokens of a script, or the first error in it. */
  function Tokenize(script: string): Result<seq<string>, ScriptError> {
    var lines :- ScriptLines(script);
    Tokens(lines, false)
  }

  // ----- the code -----

  method ParseScriptLines(script: string) returns (r: Result<seq<ScriptLine>, ScriptError>)
    ensures r == ScriptLines(script)
  {
    hide Content, Text.Lines;
    var raw := Text.Lines(script);
    var lines: seq<ScriptLine> := [];
    var idx := 0;
    while idx < |raw|
      invariant 0 <= idx <= |raw|
      invariant Gather(raw, 0, []) == Gather(raw, idx, lines)
    {
      var text := Content(raw[idx]);
      if text != "" {
        lines := lines + [ScriptLine(idx + 1, text)];
        if |lines| > MAX_SCRIPT_LINES {
          return Err(ScriptError(idx + 1, text, TooManyLines));
        }
      }
      idx := idx + 1;
    }
    return Ok(lines);
  }

  method ValidateScript(script: string) returns (r: Result<(), ScriptError>)
    ensures r == var t := Tokenize(script); if t.Ok? then Ok(()) else Err(t.error)
  {
    hide ScriptLines;
    hide Keyword, Token, Tokens, Prepend, ParseSelector, ParseWait, SelectorText, After, Text.Decimal;
    var lines :- ParseScriptLines(script);
    var lastCommandSeen := false;
    var i := 0;
    ghost var before: seq<string> := [];
    TokensStart(lines);
    while i < |lines|
      invariant 0 <= i <= |lines|
      invariant Tokens(lines, false) == Prepend(before, Tokens(lines[i..], lastCommandSeen))
    {
      var entry := lines[i];
      TokensStep(lines, i, before, lastCommandSeen);
      TokenIs(entry.text, lastCommandSeen);
      i := i + 1;
      var keyword := Keyword(entry.text);
      if keyword == None {
        continue;
      }
      if keyword == Some(EXPECT) {
        if !lastCommandSeen {
          return Err(ScriptError(entry.number, entry.text, ExpectWithoutCommand));
        }
        var selector := ParseSelector(After(entry.text, EXPECT));
        if selector.Err? {
          return Err(ScriptError(entry.number, entry.text, selector.error));
        }
        before := before + [EXPECT + " " + SelectorText(selector.value)];
        continue;
      }
      if keyword == Some(WAIT) {
        var millis := ParseWait(entry.text);
        if millis.Err? {
          return Err(ScriptError(entry.number, entry.text, millis.error));
        }
        before := before + [WAIT + " " + Text.Decimal(millis.value)];
        continue;
      }
      before := before + [entry.text];
      lastCommandSeen := true;
    }
    TokensEnd(before, lines[i..], lastCommandSeen);
    return Ok(());
  }

  method TokenizeScript(script: string) returns (r: Result<seq<string>, ScriptError>)
    ensures r == Tokenize(script)
  {
    hide ScriptLines;
    hide Keyword, Token, Tokens, Prepend, ParseSelector, ParseWait, SelectorText, After, Text.Decimal;
    var lines :- ParseScriptLines(script);
    var tokens: seq<string> := [];
    var lastCommandSeen := false;
    var i := 0;
    TokensStart(lines);
    while i < |lines|
      invariant 0 <= i <= |lines|
      invariant Tokens(lines, false) == Prepend(tokens, Tokens(lines[i..], lastCommandSeen))
    {
      var entry := lines[i];
      TokensStep(lines, i, tokens, lastCommandSeen);
      TokenIs(entry.text, lastCommandSeen);
      i := i + 1;
      var keyword := Keyword(entry.text);
      if keyword == None {
        continue;
      }
      if keyword == Some(EXPECT) {
        if !lastCommandSeen {
          return Err(ScriptError(entry.number, entry.text, ExpectWithoutCommand));
        }
        var selector := ParseSelector(After(entry.text, EXPECT));
        if selector.Err? {
          return Err(ScriptError(entry.number, entry.text, selector.error));
        }
        tokens := tokens + [EXPECT + " " + SelectorText(selector.value)];
        continue;
      }
      if keyword == Some(WAIT) {
        var millis := ParseWait(entry.text);
        if millis.Err? {
          return Err(ScriptError(entry.number, entry.text, millis.error));
        }
        tokens := tokens + [WAIT + " " + Text.Decimal(millis.value)];
        continue;
      }
      lastCommandSeen := true;
      tokens := tokens + [entry.text];
    }
    TokensEnd(tokens, lines[i..], lastCommandSeen);
    return Ok(tokens);
  }

  function Prepend(before: seq<string>, r: Result<seq<string>, ScriptError>): Result<seq<string>, ScriptError> {
    if r.Ok? then Ok(before + r.value) else r
  }

  lemma {:induction false} TokensStart(lines: seq<ScriptLine>)
    ensures Tokens(lines, false) == Prepend([], Tokens(lines[0..], false))
  {
    hide Tokens;
    assert lines[0..] == lines;
    assert Tokens(lines, false).Ok? ==> [] + Tokens(lines, false).value == Tokens(lines, false).value;
  }

  lemma {:induction false} TokensEnd(before: seq<string>, lines: seq<ScriptLine>, seen: bool)
    requires lines == []
    ensures Prepend(before, Tokens(lines, seen)) == Ok(before)
  {
    assert before + [] == before;
  }

  lemma {:induction false} TokenIs(text: string, seen: bool)
    ensures Keyword(text) == Some(EXPECT) && !seen ==> Token(text, seen) == Err(ExpectWithoutCommand)
    ensures Keyword(text) == Some(EXPECT) && seen ==>
              var s := ParseSelector(After(text, EXPECT));
              Token(text, seen) == if s.Ok? then Ok(EXPECT + " " + SelectorText(s.value)) else Err(s.error)
    ensures Keyword(text) == Some(WAIT) ==>
              var m := ParseWait(text);
              Token(text, seen) == if m.Ok? then Ok(WAIT + " " + Text.Decimal(m.value)) else Err(m.error)
    ensures IsCommand(text) ==> Token(text, seen) == Ok(text)
  {
    hide ParseSelector, ParseWait, SelectorText, After, Keyword;
    assert EXPECT[0] != WAIT[0];
  }

  lemma {:induction false} TokensStep(lines: seq<ScriptLine>, i: nat, before: seq<string>, seen: bool)
    requires i < |lines|
    ensures var entry := lines[i];
            Prepend(before, Tokens(lines[i..], seen))
            == if Keyword(entry.text) == None then Prepend(before, Tokens(lines[i + 1..], seen))
               else if Token(entry.text, seen).Err?
               then Err(ScriptError(entry.number, entry.text, Token(entry.text, seen).error))
               else Prepend(before + [Token(entry.text, seen).value],
                            Tokens(lines[i + 1..], seen || IsCommand(entry.text)))
  {
    hide Keyword, Token, IsCommand;
    assert lines[i..][1..] == lines[i + 1..];
    var entry := lines[i];
    if Keyword(entry.text) != None && Token(entry.text, seen).Ok? {
      var token := Token(entry.text, seen).value;
      var rest := Tokens(lines[i + 1..], seen || IsCommand(entry.text));
      if rest.Ok? {
        assert before + ([token] + rest.value) == before + [token] + rest.value;
      }
    }
  }

  // ----- tokens are a normal form -----

  /** A line that reading leaves as it is. */
  predicate Clean(text: string) {
    text != "" && Text.IsTrimmed(text) && '#' !in text && '\n' !in text
  }

  lemma {:induction false} ContentIsClean(raw: string)
    requires '\n' !in raw
    ensures Content(raw) == "" || Clean(Content(raw))
  {
    var trimmed := Text.TrimEnd(raw);
    var split := Text.SplitOnce(trimmed, '#');
    var left := if split.Some? then split.value.0 else trimmed;
    assert trimmed == raw[..|trimmed|];
    assert '#' !in left && '\n' !in left;
  }

  /** What is kept of a line: the text between the blanks, before any comment. */
  lemma {:induction false} ContentIs(before: string, text: string, after: string, comment: string)
    requires Text.IsBlank(before) && Text.IsBlank(after) && Text.IsTrimmed(text) && '#' !in text
    ensures Content(before + text + after) == text
    ensures Content(before + text + after + "#" + comment) == text
  {
    hide Text.Trim, Text.TrimEnd;
    var left := before + text + after;
    assert '#' !in left by {
      NoHash(before);
      NoHash(after);
    }
    Text.TrimOfPadded(before, text, after);
    ContentOfPlain(left);
    ContentOfCommented(left, comment);
  }

  lemma {:induction false} NoHash(blank: string)
    requires Text.IsBlank(blank)
    ensures '#' !in blank
  {
    assert !Text.IsWhitespace('#');
  }

  lemma {:induction false} ContentOfPlain(left: string)
    requires '#' !in left
    ensures Content(left) == Text.Trim(left)
  {
    hide Text.TrimStart, Text.IsWhitespace;
    var t := Text.TrimEnd(left);
    assert t == left[..|t|] && '#' !in t;
    assert Text.TrimEnd(t) == t;
  }

  lemma {:induction false} ContentOfCommented(left: string, comment: string)
    requires '#' !in left
    ensures Content(left + "#" + comment) == Text.Trim(left)
  {
    var raw := left + "#" + comment;
    var t := Text.TrimEnd(raw);
    TrimEndKeeps(left + "#", comment);
    hide Text.Trim, Text.TrimEnd;
    var kept := t[|left| + 1..];
    assert t == left + ['#'] + kept;
    Text.SplitOnceOfJoin(left, '#', kept);
  }

  lemma {:induction false} TrimEndKeeps(s: string, more: string)
    requires s != [] && !Text.IsWhitespace(s[|s| - 1])
    ensures s <= Text.TrimEnd(s + more)
    decreases |more|
  {
    hide Text.IsWhitespace;
    if more == [] {
      assert s + more == s;
    } else {
      var n := |more| - 1;
      var t := s + more;
      assert t[..|t| - 1] == s + more[..n] && t[|t| - 1] == more[n];
      TrimEndKeeps(s, more[..n]);
    }
  }

  lemma {:induction false} ContentOfClean(text: string)
    requires Clean(text)
    ensures Content(text) == text
  {
    Text.TrimOfTrimmed(text);
  }

  lemma {:induction false} StartsWith(p: string, x: string)
    requires Text.IsWord(p) && x != "" && Text.IsTrimmed(x)
    ensures Keyword(p + " " + x) == Some(p) && After(p + " " + x, p) == x
  {
    hide Text.TrimStart, Text.IsWhitespace, Text.Words, Text.NoWhitespace;
    Text.WordsCons(p, x);
    NeedleRoundTrip(p, x);
    assert p <= p + " " + x;
  }

  lemma {:induction false} CleanJoin(p: string, x: string)
    requires Text.IsWord(p) && '#' !in p && Clean(x)
    ensures Clean(p + " " + x)
  {
    Text.TrimmedCons(p, x);
    var s := p + " " + x;
    assert '\n' !in p by {
      assert Text.IsWhitespace('\n');
    }
  }

  lemma {:induction false} KeywordsAreWords()
    ensures Text.IsWord(EXPECT) && Text.IsWord(WAIT) && Text.IsWord(SUBSTR) && Text.IsWord(NOT)
    ensures '#' !in EXPECT && '#' !in WAIT && '#' !in SUBSTR && '#' !in NOT
  {}

  /** The end of a clean line, blanks dropped, is clean when there is anything left. */
  lemma {:induction false} CleanSuffix(text: string, k: nat)
    requires Clean(text) && k <= |text|
    ensures var x := Text.TrimStart(text[k..]); x == "" || Clean(x)
  {
    hide Text.TrimStart, Text.IsWhitespace;
    var x := Text.TrimStart(text[k..]);
    assert x == text[k..][|text| - k - |x|..] == text[|text| - |x|..];
    if x != "" {
      assert x[|x| - 1] == text[|text| - 1];
    }
  }

  lemma {:induction false} AfterIsClean(text: string, p: string)
    requires Clean(text)
    ensures After(text, p) == "" || Clean(After(text, p))
  {
    hide Text.TrimStart, Clean;
    CleanSuffix(text, if p <= text then |p| else 0);
    assert text[0..] == text;
  }

  lemma {:induction false} SelectorIsClean(rest: string)
    requires Clean(rest) && ParseSelector(rest).Ok?
    ensures var s := ParseSelector(rest).value; (s.Substr? || s.Not?) ==> Clean(s.needle)
  {
    if SUBSTR <= rest {
      CleanSuffix(rest, |SUBSTR|);
    }
    if NOT <= rest {
      CleanSuffix(rest, |NOT|);
    }
    hide Clean, Text.TrimStart;
  }

  predicate GoodSelector(s: Selector) {
    s.Substr? || s.Not? ==> Clean(s.needle)
  }

  lemma {:induction false} NeedleRoundTrip(p: string, needle: string)
    requires needle != "" && Text.IsTrimmed(needle)
    ensures Text.TrimStart((p + " " + needle)[|p|..]) == needle
  {
    assert Text.IsWhitespace(" "[0]);
    hide Text.TrimStart, Text.IsWhitespace;
    Text.TrimStartOfBlank(" ", needle);
    assert (p + " " + needle)[|p|..] == " " + needle;
  }

  /** A printed selector reads back as itself, and is clean. */
  lemma {:induction false} SelectorRoundTrip(s: Selector)
    requires GoodSelector(s)
    ensures ParseSelector(SelectorText(s)) == Ok(s) && Clean(SelectorText(s))
  {
    hide Text.TrimStart, Clean, Text.IsWord;
    KeywordsAreWords();
    WordIsClean("OK");
    WordIsClean("ERR");
    match s
    case ExpectOk =>
    case ExpectErr =>
    case Substr(needle) =>
      CleanIs(needle);
      NeedleRoundTrip(SUBSTR, needle);
      CleanJoin(SUBSTR, needle);
      SubstrParses(needle);
    case Not(needle) =>
      CleanIs(needle);
      NeedleRoundTrip(NOT, needle);
      CleanJoin(NOT, needle);
      NotParses(needle);
  }

  lemma {:induction false} WordIsClean(w: string)
    requires w == "OK" || w == "ERR"
    ensures Clean(w)
  {}

  lemma {:induction false} SubstrParses(needle: string)
    requires needle != "" && Text.TrimStart((SUBSTR + " " + needle)[|SUBSTR|..]) == needle
    ensures ParseSelector(SUBSTR + " " + needle) == Ok(Substr(needle))
  {
    hide Text.TrimStart;
    var t := SUBSTR + " " + needle;
    assert t[0] == 'S' && |t| > 6 && SUBSTR <= t;
  }

  lemma {:induction false} NotParses(needle: string)
    requires needle != "" && Text.TrimStart((NOT + " " + needle)[|NOT|..]) == needle
    ensures ParseSelector(NOT + " " + needle) == Ok(Not(needle))
  {
    hide Text.TrimStart;
    var t := NOT + " " + needle;
    assert t[0] == 'N' && |t| > 3 && NOT <= t && SUBSTR[0] == 'S';
    assert !(SUBSTR <= t);
  }

  lemma {:induction false} DecimalIsClean(n: nat)
    ensures Clean(Text.Decimal(n)) && Text.IsWord(Text.Decimal(n))
  {
    Text.DigitsValueOfDecimal(n);
    var d := Text.Decimal(n);
    assert forall i :: 0 <= i < |d| ==> Text.IsDigit(d[i]) && !Text.IsWhitespace(d[i]);
    assert '#' !in d && '\n' !in d;
  }

  lemma {:induction false} ParseWaitOfDecimal(n: nat)
    requires n <= MAX_SCRIPT_WAIT_MS
    ensures var t := WAIT + " " + Text.Decimal(n);
            Keyword(t) == Some(WAIT) && ParseWait(t) == Ok(n) && Clean(t)
  {
    KeywordsAreWords();
    DecimalIsClean(n);
    var d := Text.Decimal(n);
    Text.ParseUnsignedOfDecimal(n, U64_MAX);
    Text.WordsOfOne(d);
    CleanJoin(WAIT, d);
    hide Text.Decimal, Text.Words, Keyword, After, Text.ParseUnsigned;
    StartsWith(WAIT, d);
  }

  /** A token read again, at the same point of a script, is itself. */
  lemma {:induction false} TokenStable(text: string, seen: bool)
    requires Clean(text) && Keyword(text) != None && Token(text, seen).Ok?
    ensures var token := Token(text, seen).value;
            && Clean(token) && Keyword(token) != None
            && IsCommand(token) == IsCommand(text)
            && Token(token, seen) == Ok(token)
  {
    TokenIs(text, seen);
    var token := Token(text, seen).value;
    TokenIs(token, seen);
    KeywordsAreWords();
    assert EXPECT[0] != WAIT[0];
    hide Token, Keyword, ParseSelector, ParseWait, SelectorText, After, Clean, Text.Decimal, Text.IsWord;
    if Keyword(text) == Some(EXPECT) {
      var rest := After(text, EXPECT);
      AfterIsClean(text, EXPECT);
      EmptySelector();
      SelectorIsClean(rest);
      var s := ParseSelector(rest).value;
      SelectorRoundTrip(s);
      CleanIs(SelectorText(s));
      CleanJoin(EXPECT, SelectorText(s));
      StartsWith(EXPECT, SelectorText(s));
    } else if Keyword(text) == Some(WAIT) {
      WaitBounded(text);
      ParseWaitOfDecimal(ParseWait(text).value);
    }
  }

  lemma {:induction false} EmptySelector()
    ensures ParseSelector("") == Err(SelectorMissing)
  {}

  lemma {:induction false} CleanIs(text: string)
    requires Clean(text)
    ensures text != "" && Text.IsTrimmed(text)
  {}

  lemma {:induction false} WaitBounded(text: string)
    requires ParseWait(text).Ok?
    ensures ParseWait(text).value <= MAX_SCRIPT_WAIT_MS
  {
    hide Text.Words, After, Text.ParseUnsigned;
  }

  predicate AllClean(texts: seq<string>) {
    forall i :: 0 <= i < |texts| ==> Clean(texts[i])
  }

  function Texts(lines: seq<ScriptLine>): (r: seq<string>)
    ensures |r| == |lines| && forall i :: 0 <= i < |r| ==> r[i] == lines[i].text
  {
    seq(|lines|, i requires 0 <= i < |lines| => lines[i].text)
  }

  lemma {:induction false} GatherIsClean(lines: seq<string>, idx: nat, taken: seq<ScriptLine>)
    requires idx <= |lines| && |taken| <= MAX_SCRIPT_LINES && AllClean(Texts(taken))
    requires forall i :: 0 <= i < |lines| ==> '\n' !in lines[i]
    ensures var r := Gather(lines, idx, taken);
            r.Ok? ==> AllClean(Texts(r.value)) && |r.value| <= MAX_SCRIPT_LINES
    decreases |lines| - idx
  {
    hide Content, Clean;
    if idx < |lines| {
      var text := Content(lines[idx]);
      ContentIsClean(lines[idx]);
      var more := taken + [ScriptLine(idx + 1, text)];
      if text == "" {
        GatherIsClean(lines, idx + 1, taken);
      } else if |more| <= MAX_SCRIPT_LINES {
        assert Texts(more) == Texts(taken) + [text];
        GatherIsClean(lines, idx + 1, more);
      }
    }
  }

  lemma {:induction false} GatherOfClean(lines: seq<string>, idx: nat, taken: seq<ScriptLine>)
    requires idx <= |lines| && |taken| == idx && |lines| <= MAX_SCRIPT_LINES
    requires AllClean(lines) && Texts(taken) == lines[..idx]
    ensures Gather(lines, idx, taken).Ok? && Texts(Gather(lines, idx, taken).value) == lines
    decreases |lines| - idx
  {
    hide Content, Clean;
    if idx < |lines| {
      ContentOfClean(lines[idx]);
      CleanNotEmpty(lines[idx]);
      var more := taken + [ScriptLine(idx + 1, lines[idx])];
      assert Texts(more) == lines[..idx + 1];
      GatherOfClean(lines, idx + 1, more);
    } else {
      assert lines[..idx] == lines;
    }
  }

  lemma {:induction false} CleanNotEmpty(text: string)
    requires Clean(text)
    ensures text != "" && Text.IsLine(text)
  {
    assert Text.IsWhitespace('\r');
  }

  lemma {:induction false} TokensStable(lines: seq<ScriptLine>, seen: bool, again: seq<ScriptLine>)
    requires AllClean(Texts(lines)) && Tokens(lines, seen).Ok? && Texts(again) == Tokens(lines, seen).value
    ensures Tokens(again, seen) == Tokens(lines, seen)
    ensures AllClean(Tokens(lines, seen).value) && |Tokens(lines, seen).value| <= |lines|
    decreases |lines|
  {
    hide Clean, Keyword, Token, IsCommand;
    if lines != [] {
      var text := lines[0].text;
      assert Clean(Texts(lines)[0]);
      assert Texts(lines[1..]) == Texts(lines)[1..];
      if Keyword(text) == None {
        TokensStable(lines[1..], seen, again);
      } else {
        var seen' := seen || IsCommand(text);
        var token := Token(text, seen).value;
        TokenStable(text, seen);
        var rest := Tokens(lines[1..], seen').value;
        assert Tokens(lines, seen).value == [token] + rest;
        assert again[0].text == token;
        assert Texts(again[1..]) == Texts(again)[1..] == rest;
        TokensStable(lines[1..], seen', again[1..]);
      }
    }
  }

  /** Tokenising is an idempotent normaliser: its output, one token a line, is a script with the same tokens. */
  lemma {:induction false} TokenizeIdempotent(script: string)
    requires Tokenize(script).Ok?
    ensures Tokenize(Text.Join(Tokenize(script).value, "\n")) == Tokenize(script)
  {
    var lines := ScriptLines(script).value;
    var tokens := Tokenize(script).value;
    GatherIsClean(Text.Lines(script), 0, []);
    hide Tokens, Clean, Gather, Text.Lines, Text.Join;
    var again := Gather(tokens, 0, []);
    TokensAreClean(lines);
    GatherOfClean(tokens, 0, []);
    TokensStable(lines, false, again.value);
    forall i | 0 <= i < |tokens|
      ensures Text.IsLine(tokens[i]) && tokens[i] != []
    {
      CleanNotEmpty(tokens[i]);
    }
    Text.LinesOfJoin(tokens);
  }

  lemma {:induction false} TokensAreClean(lines: seq<ScriptLine>)
    requires AllClean(Texts(lines)) && Tokens(lines, false).Ok?
    ensures AllClean(Tokens(lines, false).value) && |Tokens(lines, false).value| <= |lines|
  {
    hide Tokens, Clean;
    var tokens := Tokens(lines, false).value;
    var again := seq(|tokens|, i requires 0 <= i < |tokens| => ScriptLine(0, tokens[i]));
    assert Texts(again) == tokens;
    TokensStable(lines, false, again);
  }

  // ----- what is accepted, and what is refused for what -----

  /** The lines that have content, with their numbers. */
  function Contents(lines: seq<string>): seq<ScriptLine>
    decreases |lines|
  {
    if lines == [] then []
    else
      var n := |lines| - 1;
      Contents(lines[..n]) + if Content(lines[n]) == "" then [] else [ScriptLine(n + 1, Content(lines[n]))]
  }

  lemma {:induction false} ContentsGrow(lines: seq<string>, i: nat, j: nat)
    requires i <= j <= |lines|
    ensures Contents(lines[..i]) <= Contents(lines[..j])
    decreases j
  {
    hide Content;
    if i < j {
      ContentsGrow(lines, i, j - 1);
      assert lines[..j][..j - 1] == lines[..j - 1];
    }
  }

  lemma {:induction false} GatherIs(lines: seq<string>, idx: nat)
    requires idx <= |lines| && |Contents(lines[..idx])| <= 256
    ensures var all := Contents(lines);
            Gather(lines, idx, Contents(lines[..idx]))
            == if |all| <= 256 then Ok(all) else Err(ScriptError(all[256].number, all[256].text, TooManyLines))
    decreases |lines| - idx
  {
    hide Content;
    if idx == |lines| {
      assert lines[..idx] == lines;
    } else {
      assert lines[..idx + 1][..idx] == lines[..idx];
      assert Contents(lines[..idx]) + [] == Contents(lines[..idx]);
      ContentsGrow(lines, idx + 1, |lines|);
      assert lines[..|lines|] == lines;
      if |Contents(lines[..idx + 1])| <= 256 {
        GatherIs(lines, idx + 1);
      }
    }
  }

  /** A script's lines are those with content, at most 256 of them; the next one is an error. */
  lemma {:induction false} ScriptLinesAre(script: string)
    ensures var all := Contents(Text.Lines(script));
            ScriptLines(script)
            == if |all| <= 256 then Ok(all) else Err(ScriptError(all[256].number, all[256].text, TooManyLines))
  {
    var lines := Text.Lines(script);
    assert lines[..0] == [];
    hide Text.Lines;
    GatherIs(lines, 0);
  }

  predicate CommandBefore(lines: seq<ScriptLine>, i: nat) {
    exists j :: 0 <= j < i && j < |lines| && IsCommand(lines[j].text)
  }

  /** Whether a command has been seen when line `i` comes up, given that one had been before the lines. */
  predicate Seen(lines: seq<ScriptLine>, seen: bool, i: nat) {
    seen || CommandBefore(lines, i)
  }

  predicate AllHaveKeywords(lines: seq<ScriptLine>) {
    forall i :: 0 <= i < |lines| ==> Keyword(lines[i].text).Some?
  }

  lemma {:induction false} SeenStep(lines: seq<ScriptLine>, seen: bool, i: nat)
    requires lines != []
    ensures Seen(lines, seen, i + 1) <==> Seen(lines[1..], seen || IsCommand(lines[0].text), i)
  {
    hide IsCommand;
    var rest := lines[1..];
    if j :| 0 <= j < i && j < |rest| && IsCommand(rest[j].text) {
      assert lines[j + 1] == rest[j];
    }
    if j :| 0 <= j < i + 1 && j < |lines| && IsCommand(lines[j].text) {
      if j > 0 {
        assert rest[j - 1] == lines[j];
      }
    }
  }

  /**
   Tokenising goes line by line: each line's token is its own, knowing only whether a command came before it, and the
   error is that of the first line that has none.
   */
  lemma {:induction false} TokensAre(lines: seq<ScriptLine>, seen: bool, k: nat)
    requires AllHaveKeywords(lines) && k <= |lines|
    requires forall i :: 0 <= i < k ==> Token(lines[i].text, Seen(lines, seen, i)).Ok?
    ensures k == |lines| ==> Tokens(lines, seen).Ok? && |Tokens(lines, seen).value| == |lines|
                             && forall i :: 0 <= i < k ==> Ok(Tokens(lines, seen).value[i]) == Token(lines[i].text, Seen(lines, seen, i))
    ensures k < |lines| && Token(lines[k].text, Seen(lines, seen, k)).Err? ==>
              Tokens(lines, seen) == Err(ScriptError(lines[k].number, lines[k].text, Token(lines[k].text, Seen(lines, seen, k)).error))
    decreases |lines|
  {
    hide Token, Keyword, IsCommand, Seen;
    if lines != [] {
      SeenNow(lines, seen);
      var rest, seen' := lines[1..], seen || IsCommand(lines[0].text);
      assert Keyword(lines[0].text).Some?;
      if k > 0 {
        assert Token(lines[0].text, Seen(lines, seen, 0)).Ok?;
        forall i | 0 <= i < |rest| ensures Seen(lines, seen, i + 1) <==> Seen(rest, seen', i) {
          SeenStep(lines, seen, i);
        }
        assert AllHaveKeywords(rest);
        forall i | 0 <= i < k - 1 ensures Token(rest[i].text, Seen(rest, seen', i)).Ok? {
          assert lines[i + 1] == rest[i];
        }
        TokensAre(rest, seen', k - 1);
      }
    }
  }

  lemma {:induction false} SeenNow(lines: seq<ScriptLine>, seen: bool)
    ensures Seen(lines, seen, 0) <==> seen
  {}

  /** What a wait line with these arguments is. */
  lemma {:induction false} WaitIs(args: seq<string>)
    requires Text.AllWords(args)
    ensures var r := ParseWait(WAIT + " " + Text.Join(args, " "));
            && (args == [] ==> r == Err(WaitMissing))
            && (|args| > 1 ==> r == Err(WaitExtra))
            && (|args| == 1 && Text.ParseUnsigned(args[0], U64_MAX).None? ==> r == Err(WaitNotNumeric))
            && (|args| == 1 && Text.ParseUnsigned(args[0], U64_MAX).Some? ==>
                  var n := Text.ParseUnsigned(args[0], U64_MAX).value;
                  r == if n <= 2000 then Ok(n) else Err(WaitTooLong))
  {
    hide Text.ParseUnsigned, Text.Words, Text.Join, After;
    KeywordsAreWords();
    Text.WordsOfJoin(args);
    if args == [] {
      NothingAfterWait();
    } else {
      Text.JoinIsTrimmed(args);
      StartsWith(WAIT, Text.Join(args, " "));
    }
  }

  lemma {:induction false} NothingAfterWait()
    ensures Text.Join([], " ") == "" && Text.Words(After(WAIT + " " + "", WAIT)) == []
  {
    var s := WAIT + " " + "";
    assert s[..|WAIT|] == WAIT && s[|WAIT|..] == " ";
    assert Text.IsWhitespace(' ');
    assert " "[1..] == "";
    assert Text.TrimStart(" ") == Text.TrimStart("") == "";
  }

  /** What an expectation is refused for. */
  lemma {:induction false} SelectorErrors(rest: string)
    ensures ParseSelector(rest) == Err(SelectorMissing) <==> rest == ""
    ensures ParseSelector(rest) == Err(SubstrMissing) <==> "SUBSTR" <= rest && Text.TrimStart(rest[6..]) == ""
    ensures ParseSelector(rest) == Err(NotMissing) <==> "NOT" <= rest && Text.TrimStart(rest[3..]) == ""
    ensures ParseSelector(rest) == Err(SelectorInvalid)
            <==> rest !in ["", "OK", "ERR"] && !("SUBSTR" <= rest) && !("NOT" <= rest)
  {
    hide Text.TrimStart;
    if "SUBSTR" <= rest {
      assert rest[0] == 'S' && |rest| >= 6;
    }
    if "NOT" <= rest {
      assert rest[0] == 'N' && |rest| >= 3;
    }
  }
}
