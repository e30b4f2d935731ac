/**
 The string operations of the Rust standard library that the parsers are built from:
 `trim`, `split`, `split_once`, `split_whitespace`, `lines`, `join`, decimal printing and parsing.
 */
module Text {
  import opened Outcome

  /** The Unicode White_Space property, as `char::is_whitespace`. */
  predicate IsWhitespace(c: char) {
    var v := c as int;
    9 <= v <= 13 || v == 0x20 || v == 0x85 || v == 0xA0 || v == 0x1680 || 0x2000 <= v <= 0x200A
    || v == 0x2028 || v == 0x2029 || v == 0x202F || v == 0x205F || v == 0x3000
  }

  const WHITE_SPACE: string :=
    "\t\n\U{000B}\U{000C}\r \U{0085}\U{00A0}\U{1680}\U{2000}\U{2001}\U{2002}\U{2003}\U{2004}\U{2005}"
    + "\U{2006}\U{2007}\U{2008}\U{2009}\U{200A}\U{2028}\U{2029}\U{202F}\U{205F}\U{3000}"

  /** The ranges are the twenty-five characters of the property. */
  lemma {:induction false} WhitespaceIs(c: char)
    ensures IsWhitespace(c) <==> c in WHITE_SPACE
  {
    assert |WHITE_SPACE| == 25;
    if IsWhitespace(c) {
      var v := c as int;
      var k := if v <= 13 then v - 9 else if v == 0x20 then 5 else if v == 0x85 then 6 else if v == 0xA0 then 7
               else if v == 0x1680 then 8 else if v <= 0x200A then v - 0x2000 + 9
               else if v == 0x2028 then 20 else if v == 0x2029 then 21 else if v == 0x202F then 22
               else if v == 0x205F then 23 else 24;
      assert WHITE_SPACE[k] == c;
    }
  }

  predicate NoWhitespace(s: string) {
    forall i :: 0 <= i < |s| ==> !IsWhitespace(s[i])
  }

  // ----- trimming -----

  function TrimStart(s: string): (r: string)
    ensures |r| <= |s| && r == s[|s| - |r|..]
    ensures r == [] || !IsWhitespace(r[0])
  {
    if s == [] || !IsWhitespace(s[0]) then s else TrimStart(s[1..])
  }

  function TrimEnd(s: string): (r: string)
    ensures |r| <= |s| && r == s[..|r|]
    ensures r == [] || !IsWhitespace(r[|r| - 1])
  {
    if s == [] || !IsWhitespace(s[|s| - 1]) then s else TrimEnd(s[..|s| - 1])
  }

  function Trim(s: string): (r: string)
    ensures IsTrimmed(r)
    ensures |r| <= |s|
    ensures forall c :: c !in s ==> c !in r
  {
    var e := TrimEnd(s);
    var r := TrimStart(e);
    assert r != [] ==> r[|r| - 1] == e[|e| - 1];
    r
  }

  predicate IsTrimmed(s: string) {
    s == [] || (!IsWhitespace(s[0]) && !IsWhitespace(s[|s| - 1]))
  }

  lemma {:induction false} TrimOfTrimmed(s: string)
    requires IsTrimmed(s)
    ensures Trim(s) == s && TrimStart(s) == s && TrimEnd(s) == s
  {}

  lemma {:induction false} TrimStartOfBlank(blank: string, s: string)
    requires forall i :: 0 <= i < |blank| ==> IsWhitespace(blank[i])
    requires s == [] || !IsWhitespace(s[0])
    ensures TrimStart(blank + s) == s
  {
    if blank == [] {
      assert blank + s == s;
    } else {
      assert (blank + s)[1..] == blank[1..] + s;
      TrimStartOfBlank(blank[1..], s);
    }
  }

  predicate IsBlank(s: string) {
    forall i :: 0 <= i < |s| ==> IsWhitespace(s[i])
  }

  lemma {:induction false} TrimEndOfBlank(s: string, blank: string)
    requires IsBlank(blank) && (s == [] || !IsWhitespace(s[|s| - 1]))
    ensures TrimEnd(s + blank) == s
    decreases |blank|
  {
    hide IsWhitespace;
    if blank == [] {
      assert s + blank == s;
    } else {
      var n := |blank| - 1;
      var t := s + blank;
      assert t[..|t| - 1] == s + blank[..n] && t[|t| - 1] == blank[n];
      TrimEndOfBlank(s, blank[..n]);
    }
  }

  /** Trimming takes the blanks off both ends and nothing else. */
  lemma {:induction false} TrimOfPadded(before: string, s: string, after: string)
    requires IsBlank(before) && IsBlank(after) && IsTrimmed(s)
    ensures Trim(before + s + after) == s
  {
    hide IsWhitespace, TrimStart, TrimEnd;
    if s == [] {
      assert before + s + after == [] + (before + after);
      assert IsBlank(before + after);
      TrimEndOfBlank([], before + after);
      TrimOfTrimmed([]);
    } else {
      TrimEndOfBlank(before + s, after);
      TrimStartOfBlank(before, s);
    }
  }

  // ----- searching and splitting -----

  /** The index of the first `c`, or the length when there is none. */
  function Find<T(==)>(s: seq<T>, c: T): (i: nat)
    ensures i <= |s| && c !in s[..i]
    ensures i < |s| ==> s[i] == c
  {
    if s == [] || s[0] == c then 0
    else
      var i := 1 + Find(s[1..], c);
      assert s[..i] == [s[0]] + s[1..][..i - 1];
      i
  }

  lemma {:induction false} FindInConcat<T>(s: seq<T>, c: T, rest: seq<T>)
    requires c !in s
    ensures Find(s + [c] + rest, c) == |s|
  {
    if s != [] {
      assert s[0] in s;
      assert (s + [c] + rest)[1..] == s[1..] + [c] + rest;
      FindInConcat(s[1..], c, rest);
    }
  }

  function SplitOnce(s: string, sep: char): (r: Option<(string, string)>)
    ensures r.Some? ==> s == r.value.0 + [sep] + r.value.1 && sep !in r.value.0
    ensures r.None? <==> sep !in s
  {
    var i := Find(s, sep);
    if i < |s| then Some((s[..i], s[i + 1..])) else
      assert s[..i] == s;
      None
  }

  lemma {:induction false} SplitOnceOfJoin(key: string, sep: char, value: string)
    requires sep !in key
    ensures SplitOnce(key + [sep] + value, sep) == Some((key, value))
  {
    FindInConcat(key, sep, value);
    var s := key + [sep] + value;
    assert s[..|key|] == key && s[|key| + 1..] == value;
  }

  /** `str::split` on one character: always at least one piece. */
  function Split<T(==)>(s: seq<T>, sep: T): (r: seq<seq<T>>)
    ensures r != []
    ensures forall i :: 0 <= i < |r| ==> sep !in r[i]
    decreases |s|
  {
    var i := Find(s, sep);
    if i < |s| then [s[..i]] + Split(s[i + 1..], sep) else
      assert s[..i] == s;
      [s]
  }

  lemma {:induction false} SplitOfJoin<T>(head: seq<T>, sep: T, rest: seq<T>)
    requires sep !in head
    ensures Split(head + [sep] + rest, sep) == [head] + Split(rest, sep)
  {
    FindInConcat(head, sep, rest);
    var s := head + [sep] + rest;
    assert s[..|head|] == head && s[|head| + 1..] == rest;
  }

  lemma {:induction false} SplitOfConcat<T>(s: seq<T>, sep: T, rest: seq<T>)
    ensures Split(s + [sep] + rest, sep) == Split(s, sep) + Split(rest, sep)
    decreases |s|
  {
    var i := Find(s, sep);
    if i < |s| {
      var h, t := s[..i], s[i + 1..];
      assert s + [sep] + rest == h + [sep] + (t + [sep] + rest);
      SplitOfJoin(h, sep, t + [sep] + rest);
      SplitOfConcat(t, sep, rest);
    } else {
      assert s[..i] == s;
      SplitOfJoin(s, sep, rest);
    }
  }

  // ----- lines -----

  function StripCr(s: string): string {
    if s != [] && s[|s| - 1] == '\r' then s[..|s| - 1] else s
  }

  /** `str::lines` and `BufRead::lines`: newline terminated pieces, `\r\n` counting as one terminator. */
  function Lines(s: string): (r: seq<string>)
    ensures forall i :: 0 <= i < |r| ==> '\n' !in r[i]
    decreases |s|
  {
    if s == [] then []
    else
      var i := Find(s, '\n');
      if i < |s| then [StripCr(s[..i])] + Lines(s[i + 1..]) else
        assert s[..i] == s;
        [s]
  }

  predicate IsLine(t: string) {
    '\n' !in t && (t == [] || t[|t| - 1] != '\r')
  }

  lemma {:induction false} LinesStep(t: string, rest: string)
    requires IsLine(t)
    ensures Lines(t + "\n" + rest) == [t] + Lines(rest)
  {
    FindInConcat(t, '\n', rest);
    var s := t + "\n" + rest;
    assert s == t + ['\n'] + rest;
    assert s[..|t|] == t && s[|t| + 1..] == rest;
  }

  /** A carriage return before the newline belongs to the line ending, and only one: the line may itself end in one. */
  lemma {:induction false} CrLfStep(t: string, rest: string)
    requires '\n' !in t
    ensures Lines(t + "\r\n" + rest) == [t] + Lines(rest)
  {
    var line := t + "\r";
    FindInConcat(line, '\n', rest);
    var s := t + "\r\n" + rest;
    assert s == line + ['\n'] + rest;
    assert s[..|line|] == line && s[|line| + 1..] == rest;
    assert StripCr(line) == t;
  }

  /** A last line without a newline is kept as it is, a carriage return at its end included. */
  lemma {:induction false} LastLine(t: string)
    requires '\n' !in t && t != []
    ensures Lines(t) == [t]
  {
    assert forall i :: 0 <= i < |t| ==> t[i] != '\n';
  }

  // ----- joining -----

  function Join(parts: seq<string>, sep: string): string
    decreases |parts|
  {
    if parts == [] then [] else if |parts| == 1 then parts[0] else parts[0] + sep + Join(parts[1..], sep)
  }

  lemma {:induction false} LinesOfJoin(parts: seq<string>)
    requires forall i :: 0 <= i < |parts| ==> IsLine(parts[i]) && parts[i] != []
    ensures Lines(Join(parts, "\n")) == parts
    decreases |parts|
  {
    if |parts| == 0 {
    } else if |parts| == 1 {
      assert Lines(parts[0]) == [parts[0]];
    } else {
      LinesStep(parts[0], Join(parts[1..], "\n"));
      LinesOfJoin(parts[1..]);
    }
  }

  // ----- words -----

  /** The length of the run of non-white-space characters at the front. */
  function WordLen(s: string): (n: nat)
    ensures n <= |s| && NoWhitespace(s[..n])
    ensures n < |s| ==> IsWhitespace(s[n])
  {
    if s == [] || IsWhitespace(s[0]) then 0
    else
      var n := 1 + WordLen(s[1..]);
      assert forall i :: 0 <= i < n ==> s[..n][i] == if i == 0 then s[0] else s[1..][..n - 1][i - 1];
      n
  }

  /** `str::split_whitespace`. */
  function Words(s: string): seq<string>
    decreases |s|
  {
    var t := TrimStart(s);
    if t == [] then []
    else
      var n := WordLen(t);
      [t[..n]] + Words(t[n..])
  }

  predicate IsWord(w: string) {
    w != [] && NoWhitespace(w)
  }

  lemma {:induction false} WordsAreWords(s: string)
    ensures AllWords(Words(s))
    decreases |s|
  {
    var t := TrimStart(s);
    if t != [] {
      WordsAreWords(t[WordLen(t)..]);
    }
  }

  lemma {:induction false} WordLenOfWord(w: string, rest: string)
    requires NoWhitespace(w) && (rest == [] || IsWhitespace(rest[0]))
    ensures WordLen(w + rest) == |w|
  {
    if w == [] {
      assert w + rest == rest;
    } else {
      assert (w + rest)[1..] == w[1..] + rest;
      WordLenOfWord(w[1..], rest);
    }
  }

  /** Words print one after another and are read back: a word, then blank or nothing, then the rest. */
  lemma {:induction false} WordsStep(w: string, rest: string)
    requires IsWord(w) && (rest == [] || IsWhitespace(rest[0]))
    ensures Words(w + rest) == [w] + Words(rest)
  {
    WordLenOfWord(w, rest);
    assert !IsWhitespace((w + rest)[0]);
    assert TrimStart(w + rest) == w + rest;
    assert (w + rest)[..|w|] == w && (w + rest)[|w|..] == rest;
  }

  lemma {:induction false} WordsSkipSpace(rest: string)
    ensures Words(" " + rest) == Words(rest)
  {
    assert (" " + rest)[1..] == rest;
    assert TrimStart(" " + rest) == TrimStart(rest);
  }

  lemma {:induction false} WordsCons(w: string, tail: string)
    requires IsWord(w)
    ensures Words(w + " " + tail) == [w] + Words(tail)
  {
    WordsSkipSpace(tail);
    var rest := " " + tail;
    assert w + " " + tail == w + rest;
    WordsStep(w, rest);
  }

  lemma {:induction false} TrimmedCons(w: string, tail: string)
    requires IsWord(w)
    requires tail != [] && IsTrimmed(tail)
    ensures IsTrimmed(w + " " + tail)
  {
    var s := w + " " + tail;
    assert s[0] == w[0] && s[|s| - 1] == tail[|tail| - 1];
  }

  lemma {:induction false} WordsOfJoinStep(ws: seq<string>)
    requires |ws| > 1 && IsWord(ws[0])
    requires Words(Join(ws[1..], " ")) == ws[1..]
    ensures Words(Join(ws, " ")) == ws
  {
    WordsCons(ws[0], Join(ws[1..], " "));
    assert ws == [ws[0]] + ws[1..];
  }

  predicate AllWords(ws: seq<string>) {
    forall i :: 0 <= i < |ws| ==> IsWord(ws[i])
  }

  /** A line printed by joining words with single spaces splits back into those words. */
  lemma {:induction false} WordsOfJoin(ws: seq<string>)
    requires AllWords(ws)
    ensures Words(Join(ws, " ")) == ws
    decreases |ws|
  {
    if |ws| == 1 {
      WordsOfOne(ws[0]);
    } else if |ws| > 1 {
      WordsOfJoin(ws[1..]);
      hide Words, Join, IsWord;
      WordsOfJoinStep(ws);
    }
  }

  lemma {:induction false} WordsOfOne(w: string)
    requires IsWord(w)
    ensures Words(w) == [w]
  {
    assert w + [] == w;
    WordsStep(w, []);
  }

  lemma {:induction false} JoinIsTrimmed(ws: seq<string>)
    requires ws != [] && AllWords(ws)
    ensures Join(ws, " ") != [] && IsTrimmed(Join(ws, " "))
    decreases |ws|
  {
    if |ws| > 1 {
      JoinIsTrimmed(ws[1..]);
      TrimmedCons(ws[0], Join(ws[1..], " "));
    }
  }

  // ----- decimal numbers -----

  predicate IsDigit(c: char) {
    '0' <= c <= '9'
  }

  predicate AllDigits(s: string) {
    forall i :: 0 <= i < |s| ==> IsDigit(s[i])
  }

  function DigitValue(c: char): nat
    requires IsDigit(c)
  {
    c as int - '0' as int
  }

  function DigitChar(d: nat): (c: char)
    requires d < 10
    ensures IsDigit(c) && DigitValue(c) == d
  {
    (d + '0' as int) as char
  }

  /** `{}` of an unsigned integer. */
  function Decimal(n: nat): (s: string)
    ensures s != [] && AllDigits(s)
    ensures s[0] == '0' <==> n == 0
  {
    if n < 10 then [DigitChar(n)] else Decimal(n / 10) + [DigitChar(n % 10)]
  }

  function DigitsValue(s: string): nat
    requires AllDigits(s)
  {
    if s == [] then 0 else DigitsValue(s[..|s| - 1]) * 10 + DigitValue(s[|s| - 1])
  }

  lemma {:induction false} DigitsValueOfDecimal(n: nat)
    ensures DigitsValue(Decimal(n)) == n
  {
    var s := Decimal(n);
    if n < 10 {
      assert s[..0] == [];
    } else {
      assert s[..|s| - 1] == Decimal(n / 10);
      DigitsValueOfDecimal(n / 10);
    }
  }

  /** `str::parse` into an unsigned integer type with the given maximum: an optional `+`, then digits. */
  function ParseUnsigned(s: string, max: nat): (r: Option<nat>)
    ensures r.Some? ==> r.value <= max
  {
    var digits := if s != [] && s[0] == '+' then s[1..] else s;
    if digits != [] && AllDigits(digits) && DigitsValue(digits) <= max then Some(DigitsValue(digits)) else None
  }

  lemma {:induction false} ParseUnsignedOfDecimal(n: nat, max: nat)
    requires n <= max
    ensures ParseUnsigned(Decimal(n), max) == Some(n)
  {
    DigitsValueOfDecimal(n);
    assert IsDigit(Decimal(n)[0]);
  }

  function Zeros(k: nat): string {
    seq(k, _ => '0')
  }

  lemma {:induction false} LeadingZeros(s: string) returns (k: nat)
    requires s != [] && AllDigits(s)
    ensures s == Zeros(k) + Decimal(DigitsValue(s))
    decreases |s|
  {
    var front, v := s[..|s| - 1], DigitsValue(s);
    if front == [] {
      k := 0;
    } else {
      k := LeadingZeros(front);
      if DigitsValue(front) == 0 {
        k := k + 1;
      } else {
        assert v / 10 == DigitsValue(front) && v % 10 == DigitValue(s[|s| - 1]);
      }
    }
  }

  lemma {:induction false} DigitsValueOfPadded(k: nat, n: nat)
    ensures AllDigits(Zeros(k) + Decimal(n)) && DigitsValue(Zeros(k) + Decimal(n)) == n
    decreases n
  {
    var s := Zeros(k) + Decimal(n);
    if n < 10 {
      assert s[..|s| - 1] == Zeros(k);
      DigitsValueOfZeros(k);
    } else {
      assert s[..|s| - 1] == Zeros(k) + Decimal(n / 10);
      DigitsValueOfPadded(k, n / 10);
    }
  }

  lemma {:induction false} DigitsValueOfZeros(k: nat)
    ensures DigitsValue(Zeros(k)) == 0
  {
    if k > 0 {
      assert Zeros(k)[..k - 1] == Zeros(k - 1);
      DigitsValueOfZeros(k - 1);
    }
  }

  /** A numeral: an optional plus sign and any number of zeros before the number as it is printed. */
  function Numeral(plus: bool, zeros: nat, n: nat): string {
    (if plus then "+" else "") + Zeros(zeros) + Decimal(n)
  }

  /** Exactly the numerals up to the maximum parse, each to its own number. */
  lemma {:induction false} ParseUnsignedIff(s: string, max: nat, n: nat)
    ensures ParseUnsigned(s, max) == Some(n) <==> n <= max && exists plus, zeros :: s == Numeral(plus, zeros, n)
  {
    if ParseUnsigned(s, max) == Some(n) {
      var plus := s[0] == '+';
      var zeros := LeadingZeros(if plus then s[1..] else s);
      assert s == Numeral(plus, zeros, n);
    }
    if plus, zeros :| n <= max && s == Numeral(plus, zeros, n) {
      NumeralParses(plus, zeros, n, max);
    }
  }

  lemma {:induction false} NumeralParses(plus: bool, zeros: nat, n: nat, max: nat)
    requires n <= max
    ensures ParseUnsigned(Numeral(plus, zeros, n), max) == Some(n)
  {
    var s, digits := Numeral(plus, zeros, n), Zeros(zeros) + Decimal(n);
    DigitsValueOfPadded(zeros, n);
    assert IsDigit(digits[0]);
    assert digits == if plus then s[1..] else s;
  }

  /** Longer numbers print at least as long. */
  lemma {:induction false} DecimalLenMonotone(m: nat, n: nat)
    requires m <= n
    ensures |Decimal(m)| <= |Decimal(n)|
  {
    if n >= 10 {
      if m >= 10 {
        DecimalLenMonotone(m / 10, n / 10);
      }
    }
  }
}
