/**
 Telemetry push (apps/cohsh/src/lib.rs): text is cut into numbered JSON records of at most 4096 bytes,
 each as long as fits, the length found by a binary search over byte offsets that are rounded down to
 character boundaries.
 */
module Telemetry {
  import opened Outcome
  import Json
  import Text
  import Utf8

  const SCHEMA := "cohsh-telemetry-push/v1"
  const MAX_RECORD_BYTES: nat := 4096
  const U64_MAX: nat := 0xFFFF_FFFF_FFFF_FFFF

  datatype TelemetryError = EmptyPayload | RecordTooLong

  // ----- one record -----

  function Members(num: nat, mime: string, payload: string): seq<(string, Json.Printed)> {
    [("schema", Json.PStr(Json.Serde, SCHEMA)), ("seq", Json.PInt(num)), ("mime", Json.PStr(Json.Serde, mime)),
     ("payload", Json.PStr(Json.Serde, payload))]
  }

  /** `build_telemetry_record` */
  function Record(num: nat, mime: string, payload: string): string {
    Json.ObjectText(Members(num, mime, payload), "\n")
  }

  /** The bytes a record takes besides its escaped payload. */
  function Overhead(num: nat, mime: string): nat {
    Utf8.Len(Record(num, mime, ""))
  }

  lemma {:induction false} MembersLenIs(num: nat, mime: string, payload: string)
    ensures Json.MembersLen(Members(num, mime, payload))
         == Json.MembersLen(Members(num, mime, "")) + Json.EscapedLen(Json.Serde, payload)
  {
    hide Utf8.Len, Json.MembersLen;
    var front := Members(num, mime, "")[..3];
    Json.LastStringLen(front, "payload", payload);
    Json.LastStringLen(front, "payload", "");
    Json.EscapedLenEmpty(Json.Serde);
    assert Members(num, mime, payload) == front + [("payload", Json.PStr(Json.Serde, payload))];
    assert Members(num, mime, "") == front + [("payload", Json.PStr(Json.Serde, ""))];
  }

  lemma {:induction false} RecordLen(num: nat, mime: string, payload: string)
    ensures Utf8.Len(Record(num, mime, payload)) == Overhead(num, mime) + Json.EscapedLen(Json.Serde, payload)
  {
    hide Utf8.Len, Json.ObjectText, Json.MembersLen, Json.EscapedLen;
    MembersLenIs(num, mime, payload);
    Json.ObjectTextLen(Members(num, mime, payload), "\n");
    Json.ObjectTextLen(Members(num, mime, ""), "\n");
  }

  lemma {:induction false} PlainKeys()
    ensures Json.IsPlain("schema") && Json.IsPlain("seq") && Json.IsPlain("mime") && Json.IsPlain("payload")
    ensures Json.SkipWs("\n") == []
  {}

  /** A record names its number and carries its payload: reading it as JSON gives both back. */
  lemma {:induction false} RecordReadsBack(num: nat, mime: string, payload: string)
    ensures var ms := Json.Meanings(Members(num, mime, payload));
            && Json.ReadDocument(Record(num, mime, payload)) == Some(Json.Object(ms))
            && |ms| == 4
            && ms[0] == Json.Member("schema", Json.Str("cohsh-telemetry-push/v1"))
            && ms[1] == Json.Member("seq", Json.Number(Text.Decimal(num)))
            && ms[2] == Json.Member("mime", Json.Str(mime))
            && ms[3] == Json.Member("payload", Json.Str(payload))
  {
    hide Json.IsPlain, Json.ReadDocument, Json.ObjectText, Json.SkipWs, Json.Meanings, Text.Decimal;
    PlainKeys();
    Json.ReadObject(Members(num, mime, payload), "\n");
  }

  /** Does the record for the first `k` characters fit? */
  predicate Fits(text: string, num: nat, mime: string, k: nat)
    requires k <= |text|
  {
    Utf8.Len(Record(num, mime, text[..k])) <= MAX_RECORD_BYTES
  }

  /** Shorter prefixes need no more room. */
  lemma {:induction false} FitsDownward(text: string, num: nat, mime: string, j: nat, k: nat)
    requires j <= k <= |text| && Fits(text, num, mime, k)
    ensures Fits(text, num, mime, j)
    decreases k - j
  {
    hide Utf8.Len, Record, Overhead, Json.EscapedLen;
    if j < k {
      RecordLen(num, mime, text[..k]);
      RecordLen(num, mime, text[..k - 1]);
      Json.EscapedLenStep(Json.Serde, text, k - 1);
      FitsDownward(text, num, mime, j, k - 1);
    }
  }

  // ----- the search -----

  /** The reference: the longest prefix of at most `k` characters that fits, by counting down. */
  function LargestFit(text: string, num: nat, mime: string, k: nat): (r: nat)
    requires k <= |text|
    ensures r <= k
  {
    if k == 0 || Fits(text, num, mime, k) then k else LargestFit(text, num, mime, k - 1)
  }

  lemma {:induction false} LargestFitIs(text: string, num: nat, mime: string, k: nat, r: nat)
    requires r <= k <= |text|
    requires r == 0 || Fits(text, num, mime, r)
    requires r == k || !Fits(text, num, mime, r + 1)
    ensures LargestFit(text, num, mime, k) == r
    decreases k
  {
    hide Fits;
    if r < k {
      if Fits(text, num, mime, k) {
        FitsDownward(text, num, mime, r + 1, k);
      }
      LargestFitIs(text, num, mime, k - 1, r);
    }
  }

  predicate IsAscii(text: string) {
    forall i :: 0 <= i < |text| ==> text[i] as int < 0x80
  }

  lemma {:induction false} FitsIs(text: string, num: nat, mime: string, k: nat)
    requires k <= |text|
    ensures Fits(text, num, mime, k) <==> Utf8.Len(Record(num, mime, text[..k])) <= MAX_RECORD_BYTES
  {}

  // ----- all records -----

  function NextNum(num: nat): nat {
    if num >= U64_MAX then U64_MAX else num + 1
  }

  /** The reference splitting: the longest prefix that fits, then the rest with the next number. */
  function Split(text: string, num: nat, mime: string): Result<seq<string>, TelemetryError>
    decreases |text|
  {
    if text == [] then Ok([])
    else
      var k := LargestFit(text, num, mime, |text|);
      if k == 0 then Err(RecordTooLong)
      else
        var rest :- Split(text[k..], NextNum(num), mime);
        Ok([Record(num, mime, text[..k])] + rest)
  }

  function Then(done: seq<string>, r: Result<seq<string>, TelemetryError>): Result<seq<string>, TelemetryError> {
    if r.Ok? then Ok(done + r.value) else r
  }

  lemma {:induction false} ThenNothing(r: Result<seq<string>, TelemetryError>)
    ensures Then([], r) == r
  {
    if r.Ok? {
      assert [] + r.value == r.value;
    }
  }

  lemma {:induction false} SplitNothing(done: seq<string>, num: nat, mime: string)
    ensures Then(done, Split([], num, mime)) == Ok(done)
  {
    assert done + [] == done;
  }

  lemma {:induction false} SplitStep(done: seq<string>, text: string, num: nat, mime: string)
    requires text != []
    ensures var k := LargestFit(text, num, mime, |text|);
            Then(done, Split(text, num, mime))
            == if k == 0 then Err(RecordTooLong)
               else Then(done + [Record(num, mime, text[..k])], Split(text[k..], NextNum(num), mime))
  {
    hide Record, LargestFit;
    var k := LargestFit(text, num, mime, |text|);
    if k > 0 {
      var rest := Split(text[k..], NextNum(num), mime);
      if rest.Ok? {
        var head := Record(num, mime, text[..k]);
        assert done + ([head] + rest.value) == done + [head] + rest.value;
      }
    }
  }

  lemma {:induction false} LargestFits(text: string, num: nat, mime: string, k: nat)
    requires k <= |text|
    ensures var r := LargestFit(text, num, mime, k); r > 0 ==> Fits(text, num, mime, r)
    decreases k
  {
    hide Fits;
    if k > 0 && !Fits(text, num, mime, k) {
      LargestFits(text, num, mime, k - 1);
    }
  }

  // ----- what the records carry -----

  function Flatten(chunks: seq<string>): string
    decreases |chunks|
  {
    if chunks == [] then [] else chunks[0] + Flatten(chunks[1..])
  }

  /** The records are those of consecutive chunks, numbered from `num`, none empty, each within the bound. */
  predicate Carries(records: seq<string>, chunks: seq<string>, num: nat, mime: string) {
    && |records| == |chunks|
    && forall i :: 0 <= i < |chunks| ==>
         && chunks[i] != []
         && records[i] == Record(num + i, mime, chunks[i])
         && Utf8.Len(records[i]) <= 4096
  }

  /** The chunks whose records `Split` makes. */
  function Chunks(text: string, num: nat, mime: string): seq<string>
    decreases |text|
  {
    if text == [] then []
    else
      var k := LargestFit(text, num, mime, |text|);
      if k == 0 then [] else [text[..k]] + Chunks(text[k..], NextNum(num), mime)
  }

  /**
   When the split succeeds the chunks join to the input and the records carry them with consecutive numbers;
   the numbers are exact for any text a machine can hold.
   */
  lemma {:induction false} SplitCarriesAll(text: string, num: nat, mime: string)
    requires Split(text, num, mime).Ok? && num + |text| <= U64_MAX
    ensures Flatten(Chunks(text, num, mime)) == text
    ensures Carries(Split(text, num, mime).value, Chunks(text, num, mime), num, mime)
    decreases |text|
  {
    hide LargestFit, Record, Utf8.Len, Fits;
    if text != [] {
      var k := LargestFit(text, num, mime, |text|);
      LargestFits(text, num, mime, |text|);
      FitsIs(text, num, mime, k);
      SplitCarriesAll(text[k..], num + 1, mime);
      assert text[..k] + text[k..] == text;
      var rs, cs := Split(text, num, mime).value, Chunks(text, num, mime);
      var rs', cs' := Split(text[k..], num + 1, mime).value, Chunks(text[k..], num + 1, mime);
      assert rs == [Record(num, mime, text[..k])] + rs' && cs == [text[..k]] + cs';
      CarriesCons(rs, cs, num, mime);
    }
  }

  lemma {:induction false} CarriesCons(records: seq<string>, chunks: seq<string>, num: nat, mime: string)
    requires records != [] && chunks != [] && chunks[0] != []
    requires records[0] == Record(num, mime, chunks[0]) && Utf8.Len(records[0]) <= MAX_RECORD_BYTES
    requires Carries(records[1..], chunks[1..], num + 1, mime)
    ensures Carries(records, chunks, num, mime)
  {
    hide Record, Utf8.Len;
    forall i | 1 <= i < |chunks|
      ensures chunks[i] != [] && records[i] == Record(num + i, mime, chunks[i]) && Utf8.Len(records[i]) <= MAX_RECORD_BYTES
    {
      assert chunks[i] == chunks[1..][i - 1] && records[i] == records[1..][i - 1];
      assert num + 1 + (i - 1) == num + i;
    }
  }

  /** Room for one more escaped character beside the largest number is enough for every split to succeed. */
  lemma {:induction false} SplitSucceeds(text: string, num: nat, mime: string)
    requires num <= U64_MAX && Overhead(U64_MAX, mime) + 6 <= MAX_RECORD_BYTES
    ensures Split(text, num, mime).Ok?
    decreases |text|
  {
    hide LargestFit, Record, Overhead, Utf8.Len;
    if text != [] {
      FirstFits(text, num, mime);
      SplitSucceeds(text[LargestFit(text, num, mime, |text|)..], NextNum(num), mime);
    }
  }

  lemma {:induction false} FirstFits(text: string, num: nat, mime: string)
    requires text != [] && num <= U64_MAX && Overhead(U64_MAX, mime) + 6 <= MAX_RECORD_BYTES
    ensures LargestFit(text, num, mime, |text|) > 0
  {
    hide LargestFit, Record, Utf8.Len, Json.EscapedLen, Overhead;
    assert text[..0] == "";
    Json.EscapedLenEmpty(Json.Serde);
    Json.EscapedLenStep(Json.Serde, text, 0);
    RecordLen(num, mime, text[..1]);
    OverheadGrows(num, U64_MAX, mime);
    FitsIs(text, num, mime, 1);
    FitsReached(text, num, mime, |text|);
  }

  lemma {:induction false} FitsReached(text: string, num: nat, mime: string, k: nat)
    requires 1 <= k <= |text| && Fits(text, num, mime, 1)
    ensures LargestFit(text, num, mime, k) > 0
    decreases k
  {
    hide Fits;
    if k > 1 && !Fits(text, num, mime, k) {
      FitsReached(text, num, mime, k - 1);
    }
  }

  lemma {:induction false} OverheadGrows(a: nat, b: nat, mime: string)
    requires a <= b
    ensures Overhead(a, mime) <= Overhead(b, mime)
  {
    hide Utf8.Len, Json.PrintedText;
    var x, y := Members(a, mime, ""), Members(b, mime, "");
    hide Json.ObjectText;
    Json.ObjectTextLen(x, "\n");
    Json.ObjectTextLen(y, "\n");
    assert x[1..][1..] == y[1..][1..];
    assert x[1..][0] == ("seq", Json.PInt(a)) && y[1..][0] == ("seq", Json.PInt(b));
    NumberLenGrows(a, b);
    assert Json.MembersLen(x[1..]) <= Json.MembersLen(y[1..]);
  }

  lemma {:induction false} NumberLenGrows(a: nat, b: nat)
    requires a <= b
    ensures Utf8.Len(Json.PrintedText(Json.PInt(a))) <= Utf8.Len(Json.PrintedText(Json.PInt(b)))
  {
    Text.DecimalLenMonotone(a, b);
    DigitsLen(Text.Decimal(a));
    DigitsLen(Text.Decimal(b));
    hide Text.Decimal, Utf8.Len;
  }

  lemma {:induction false} DigitsLen(s: string)
    requires Text.AllDigits(s)
    ensures Utf8.Len(s) == |s|
  {
    assert forall i :: 0 <= i < |s| ==> Text.IsDigit(s[i]);
    Utf8.AsciiLen(s);
  }

  // ----- short texts -----

  lemma {:induction false} EscapedLenBound(s: string, k: nat)
    requires k <= |s|
    ensures Json.EscapedLen(Json.Serde, s[..k]) <= 6 * k
    decreases k
  {
    hide Json.EscapedLen;
    if k == 0 {
      Json.EscapedLenEmpty(Json.Serde);
    } else {
      EscapedLenBound(s, k - 1);
      Json.EscapedLenStep(Json.Serde, s, k - 1);
    }
  }

  lemma {:induction false} QuotedBound(s: string)
    ensures Utf8.Len(Json.PrintedText(Json.PStr(Json.Serde, s))) <= 6 * |s| + 2
  {
    hide Utf8.Len, Json.Escape, Json.Quote;
    Json.QuoteLen(Json.Serde, s);
    EscapedLenBound(s, |s|);
    assert s[..|s|] == s;
  }

  lemma {:induction false} KeysLen()
    ensures Utf8.Len("schema") == 6 && Utf8.Len("seq") == 3 && Utf8.Len("mime") == 4 && Utf8.Len("payload") == 7
    ensures Utf8.Len("\n") == 1 && Utf8.Len(Json.PrintedText(Json.PInt(1))) == 1 && |SCHEMA| == 23
  {
    hide Utf8.Len;
    Utf8.AsciiLen("schema");
    Utf8.AsciiLen("seq");
    Utf8.AsciiLen("mime");
    Utf8.AsciiLen("payload");
    Utf8.AsciiLen("\n");
    DigitsLen(Text.Decimal(1));
  }

  lemma {:induction false} FirstOverheadBound(mime: string)
    ensures Overhead(1, mime) <= 6 * |mime| + 200
  {
    hide Utf8.Len, Json.PrintedText, Json.ObjectText;
    var ms := Members(1, mime, "");
    KeysLen();
    QuotedBound(SCHEMA);
    QuotedBound(mime);
    QuotedBound("");
    Json.ObjectTextLen(ms, "\n");
    assert ms[1..] == ms[1..][..1] + ms[2..] && ms[2..] == ms[2..][..1] + ms[3..];
    var a, b, c := ms[1..], ms[2..], ms[3..];
    assert a[0] == ms[1] && a[1..] == b && b[0] == ms[2] && b[1..] == c && c[0] == ms[3] && c[1..] == [];
    assert Json.MembersLen(c) <= 13;
    assert Json.MembersLen(b) <= 13 + 10 + 6 * |mime|;
    assert Json.MembersLen(a) <= 31 + 6 * |mime|;
  }

  /** A hundred characters with a content type of at most a hundred fit the first record. */
  lemma {:induction false} ShortTextFits(text: string, mime: string)
    requires |text| <= 100 && |mime| <= 100
    ensures Fits(text, 1, mime, |text|)
  {
    hide Utf8.Len, Record, Overhead, Json.EscapedLen;
    FirstOverheadBound(mime);
    RecordLen(1, mime, text[..|text|]);
    EscapedLenBound(text, |text|);
  }
}
