/**
 The publish protocol of the GPU bridge, both ends: the publisher's `begin`, `b64:` and `end` lines
 (apps/gpu-bridge-host) and the receiver that reassembles them (apps/nine-door/src/host/core.rs).
 SHA-256 is a parameter: any function from bytes to 32 bytes.
 */
module Publish {
  import opened Outcome
  import opened Text
  import opened Framing
  import Base64
  import Json
  import Utf8
  import W = GpuWire
  import GpuRoundTrip

  type Hash = seq<byte> -> seq<byte>

  // ----- hexadecimal digests -----

  function HexEncode(d: seq<byte>): (s: string)
    ensures |s| == 2 * |d|
  {
    if d == [] then [] else [Json.HexDigit(d[0] / 16), Json.HexDigit(d[0] % 16)] + HexEncode(d[1..])
  }

  function HexDecode(s: string): Option<seq<byte>> {
    if s == [] then Some([])
    else if |s| == 1 then None
    else
      var hi :- Json.HexValue(s[0]);
      var lo :- Json.HexValue(s[1]);
      var rest :- HexDecode(s[2..]);
      Some([hi * 16 + lo] + rest)
  }

  lemma {:induction false} HexDecodeOfEncode(d: seq<byte>)
    ensures HexDecode(HexEncode(d)) == Some(d)
  {
    hide Json.HexDigit, Json.HexValue;
    if d != [] {
      Json.HexValueOfDigit(d[0] / 16);
      Json.HexValueOfDigit(d[0] % 16);
      HexDecodeOfEncode(d[1..]);
      assert HexEncode(d)[2..] == HexEncode(d[1..]);
      assert [d[0]] + d[1..] == d;
    }
  }

  lemma {:induction false} HexIsWord(d: seq<byte>)
    ensures NoWhitespace(HexEncode(d))
  {
    if d != [] {
      HexIsWord(d[1..]);
    }
  }

  // ----- the publisher -----

  datatype PublishError = LimitTooSmall

  /** The `begin` line after its keyword. */
  function BeginFields(size: nat, digest: seq<byte>): seq<string> {
    W.FieldWords([("bytes", Decimal(size)), ("sha256", HexEncode(digest))])
  }

  function BeginWords(size: nat, digest: seq<byte>): seq<string> {
    ["begin"] + BeginFields(size, digest)
  }

  function PublishLines(bytes: seq<byte>, limit: nat, digest: seq<byte>): seq<string>
    requires limit >= 8
  {
    [Join(BeginWords(|bytes|, digest), " ")] + (Frames(bytes, ChunkLen(limit)) + ["end"])
  }

  /** `build_publish_lines_with_limit`. */
  method BuildPublishLines(s: W.Snapshot, limit: nat, hash: Hash) returns (r: Result<seq<string>, PublishError>)
    ensures r.Ok? <==> limit >= 8
    ensures r.Ok? ==> r.value == PublishLines(W.Wire(s), limit, hash(W.Wire(s)))
  {
    hide W.Wire, Base64.Encode, Chunks, BeginWords, Join, ChunkLen, Prefixed;
    if limit < 8 {
      return Err(LimitTooSmall);
    }
    var bytes := W.NamespaceToWire(s);
    var lines := [Join(BeginWords(|bytes|, hash(bytes)), " ")];
    ghost var begin := lines;
    var encoded := Base64.Encode(bytes);
    var chunkLen := ChunkLen(limit);
    if chunkLen < 4 {
      return Err(LimitTooSmall);
    }
    var chunks := Chunks(encoded, chunkLen);
    assert chunks[..0] == [];
    PrefixedNone();
    for i := 0 to |chunks|
      invariant lines == begin + Prefixed(chunks[..i])
    {
      assert chunks[..i + 1] == chunks[..i] + [chunks[i]];
      PrefixedSnoc(chunks[..i], chunks[i]);
      lines := lines + [PREFIX + chunks[i]];
    }
    assert chunks[..|chunks|] == chunks;
    lines := lines + ["end"];
    assert lines == begin + (Frames(bytes, chunkLen) + ["end"]);
    r := Ok(lines);
  }

  lemma {:induction false} PrefixedNone()
    ensures Prefixed([]) == []
  {}

  // ----- the receiver -----

  datatype Pending = Pending(expectedBytes: nat, expectedHash: seq<byte>, encoded: string)

  datatype Update =
    | Nothing
    | Started(bytes: nat)
    | Complete(bytes: nat, sha256: string, snapshot: W.Snapshot)

  datatype ReceiveError =
    | MissingEquals
    | BadSize
    | ZeroSize
    | UnknownField
    | MissingSize
    | MissingHash
    | BadHash
    | TooLarge(size: nat)
    | EndWithoutBegin
    | DataWithoutBegin
    | BadBase64
    | SizeMismatch
    | HashMismatch
    | BadSnapshot(why: W.Error)
    | SizeOverflow
    | TooMuchData
    | NotRecognised

  datatype Announced = Announced(size: Option<nat>, hash: Option<string>)

  /** The field loop of `parse_gpu_bridge_begin`. */
  function ReadBegin(parts: seq<string>, acc: Announced): Result<Announced, ReceiveError>
    decreases |parts|
  {
    if parts == [] then Ok(acc)
    else
      var (key, value) :- OkOr(SplitOnce(parts[0], '='), MissingEquals);
      if key == "bytes" then
        var n :- OkOr(ParseUnsigned(value, Json.USIZE_MAX), BadSize);
        if n == 0 then Err(ZeroSize) else ReadBegin(parts[1..], acc.(size := Some(n)))
      else if key == "sha256" then ReadBegin(parts[1..], acc.(hash := Some(value)))
      else Err(UnknownField)
  }

  function ParseBegin(rest: string): Result<(nat, seq<byte>), ReceiveError> {
    var a :- ReadBegin(Words(rest), Announced(None, None));
    var size :- OkOr(a.size, MissingSize);
    var text :- OkOr(a.hash, MissingHash);
    var digest :- OkOr(if Utf8.Len(text) == 64 then HexDecode(text) else None, BadHash);
    Ok((size, digest))
  }

  /** What an `end` line does with the collected text. */
  function Conclude(p: Pending, hash: Hash): Result<Update, ReceiveError> {
    var decoded :- OkOr(Base64.Decode(p.encoded), BadBase64);
    if |decoded| != p.expectedBytes then Err(SizeMismatch)
    else if hash(decoded) != p.expectedHash then Err(HashMismatch)
    else
      var parsed := W.Parse(decoded);
      if parsed.Err? then Err(BadSnapshot(parsed.error))
      else Ok(Complete(p.expectedBytes, HexEncode(hash(decoded)), parsed.value))
  }

  function EncodedLen(bytes: nat): nat {
    bytes / 3 * 4 + if bytes % 3 == 0 then 0 else 4
  }

  /** `GpuBridgeReceiver::handle_line`: the next pending transfer and the outcome. */
  function Handle(pending: Option<Pending>, maxBytes: nat, hash: Hash, line: string)
    : (Option<Pending>, Result<Update, ReceiveError>)
  {
    var t := Trim(line);
    if t == [] then (pending, Ok(Nothing))
    else if "begin" <= t then
      var begun := ParseBegin(t[5..]);
      if begun.Err? then (pending, Err(begun.error))
      else if begun.value.0 > maxBytes then (pending, Err(TooLarge(begun.value.0)))
      else (Some(Pending(begun.value.0, begun.value.1, [])), Ok(Started(begun.value.0)))
    else if t == "end" then
      if pending.None? then (None, Err(EndWithoutBegin)) else (None, Conclude(pending.value, hash))
    else if PREFIX <= t then
      if pending.None? then (None, Err(DataWithoutBegin))
      else
        var p := pending.value;
        var rest := t[|PREFIX|..];
        if EncodedLen(p.expectedBytes) > Json.USIZE_MAX then (pending, Err(SizeOverflow))
        else if Utf8.Len(p.encoded) + Utf8.Len(rest) > EncodedLen(p.expectedBytes) then (pending, Err(TooMuchData))
        else (Some(p.(encoded := p.encoded + rest)), Ok(Nothing))
    else (pending, Err(NotRecognised))
  }

  class Receiver {
    const maxBytes: nat
    const hash: Hash
    var pending: Option<Pending>

    constructor (maxBytes: nat, hash: Hash)
      ensures this.maxBytes == maxBytes && this.hash == hash && pending == None
    {
      this.maxBytes, this.hash, pending := maxBytes, hash, None;
    }

    method HandleLine(line: string) returns (r: Result<Update, ReceiveError>)
      modifies this
      ensures (pending, r) == Handle(old(pending), maxBytes, hash, line)
    {
      hide ParseBegin, Conclude, Trim, Utf8.Len, EncodedLen;
      var trimmed := Trim(line);
      if trimmed == [] {
        return Ok(Nothing);
      }
      if "begin" <= trimmed {
        var begun :- ParseBegin(trimmed[5..]);
        if begun.0 > maxBytes {
          return Err(TooLarge(begun.0));
        }
        pending := Some(Pending(begun.0, begun.1, []));
        return Ok(Started(begun.0));
      }
      if trimmed == "end" {
        if pending.None? {
          return Err(EndWithoutBegin);
        }
        var taken := pending.value;
        pending := None;
        r := Conclude(taken, hash);
        return;
      }
      if PREFIX <= trimmed {
        if pending.None? {
          return Err(DataWithoutBegin);
        }
        var p, rest := pending.value, trimmed[|PREFIX|..];
        if EncodedLen(p.expectedBytes) > Json.USIZE_MAX {
          return Err(SizeOverflow);
        }
        if Utf8.Len(p.encoded) + Utf8.Len(rest) > EncodedLen(p.expectedBytes) {
          return Err(TooMuchData);
        }
        pending := Some(p.(encoded := p.encoded + rest));
        return Ok(Nothing);
      }
      return Err(NotRecognised);
    }
  }

  // ----- both ends together -----

  /** A run of the receiver over a list of lines: the final pending transfer and every outcome. */
  function Feed(pending: Option<Pending>, maxBytes: nat, hash: Hash, lines: seq<string>)
    : (Option<Pending>, seq<Result<Update, ReceiveError>>)
    decreases |lines|
  {
    if lines == [] then (pending, [])
    else
      var (next, r) := Handle(pending, maxBytes, hash, lines[0]);
      var (last, rs) := Feed(next, maxBytes, hash, lines[1..]);
      (last, [r] + rs)
  }

  function Quiet(n: nat): seq<Result<Update, ReceiveError>> {
    if n == 0 then [] else [Ok(Nothing)] + Quiet(n - 1)
  }

  lemma {:induction false} FeedCons(pending: Option<Pending>, maxBytes: nat, hash: Hash, line: string, rest: seq<string>)
    ensures var (next, r) := Handle(pending, maxBytes, hash, line);
            var (last, rs) := Feed(next, maxBytes, hash, rest);
            Feed(pending, maxBytes, hash, [line] + rest) == (last, [r] + rs)
  {
    hide Handle;
    assert ([line] + rest)[1..] == rest;
  }

  predicate IsPayload(text: string) {
    forall i :: 0 <= i < |text| ==> Base64.IsSymbol(text[i])
  }

  lemma {:induction false} PayloadLen(text: string)
    requires IsPayload(text)
    ensures Utf8.Len(text) == |text|
  {
    assert forall i :: 0 <= i < |text| ==> text[i] as int < 0x80 by {
      forall i | 0 <= i < |text| ensures text[i] as int < 0x80 {
        assert Base64.IsSymbol(text[i]);
      }
    }
    Utf8.AsciiLen(text);
  }

  lemma {:induction false} DataLineShape(text: string)
    requires IsPayload(text)
    ensures var t := PREFIX + text;
            Trim(t) == t && !("begin" <= t) && t != "end" && PREFIX <= t && t[|PREFIX|..] == text
  {
    var t := PREFIX + text;
    assert text != [] ==> Base64.IsSymbol(text[|text| - 1]);
    assert IsTrimmed(t);
    hide IsTrimmed, IsPayload, Trim;
    TrimOfTrimmed(t);
    assert t[0] == 'b' && t[1] == '6';
  }

  lemma {:induction false} HandleData(p: Pending, maxBytes: nat, hash: Hash, text: string)
    requires IsPayload(p.encoded) && IsPayload(text)
    requires |p.encoded| + |text| <= EncodedLen(p.expectedBytes) <= Json.USIZE_MAX
    ensures Handle(Some(p), maxBytes, hash, PREFIX + text) == (Some(p.(encoded := p.encoded + text)), Ok(Nothing))
  {
    hide IsPayload, Utf8.Len, EncodedLen, Conclude, ParseBegin, Trim;
    PayloadLen(p.encoded);
    PayloadLen(text);
    DataLineShape(text);
  }

  function Flatten(chunks: seq<string>): string
    decreases |chunks|
  {
    if chunks == [] then [] else chunks[0] + Flatten(chunks[1..])
  }

  lemma {:induction false} ChunksOfPayload(t: string, n: nat)
    requires n > 0 && IsPayload(t)
    ensures Flatten(Chunks(t, n)) == t
    ensures forall i :: 0 <= i < |Chunks(t, n)| ==> IsPayload(Chunks(t, n)[i])
    decreases |t|
  {
    if t == [] {
    } else if |t| <= n {
      assert Flatten([t]) == t + Flatten([]);
    } else {
      ChunksOfPayload(t[n..], n);
      hide IsPayload;
      assert t == t[..n] + t[n..];
    }
  }

  lemma {:induction false} PayloadConcat(a: string, b: string)
    requires IsPayload(a) && IsPayload(b)
    ensures IsPayload(a + b)
  {
    hide Base64.IsSymbol;
  }

  lemma {:induction false} QuietStep(n: nat, rest: seq<Result<Update, ReceiveError>>)
    ensures [Ok(Nothing)] + (Quiet(n) + rest) == Quiet(n + 1) + rest
    ensures Quiet(0) + rest == rest
  {}

  /** Fed one after another, `b64:` lines leave their joined text in the pending transfer. */
  lemma {:induction false} FeedChunks(p: Pending, maxBytes: nat, hash: Hash, chunks: seq<string>, rest: seq<string>)
    requires IsPayload(p.encoded) && forall i :: 0 <= i < |chunks| ==> IsPayload(chunks[i])
    requires |p.encoded| + |Flatten(chunks)| <= EncodedLen(p.expectedBytes) <= Json.USIZE_MAX
    ensures var done := Feed(Some(p.(encoded := p.encoded + Flatten(chunks))), maxBytes, hash, rest);
            Feed(Some(p), maxBytes, hash, Prefixed(chunks) + rest) == (done.0, Quiet(|chunks|) + done.1)
    decreases |chunks|
  {
    hide Handle, Feed, EncodedLen, IsPayload, Quiet;
    var done := Feed(Some(p.(encoded := p.encoded + Flatten(chunks))), maxBytes, hash, rest);
    if chunks == [] {
      assert Prefixed(chunks) + rest == rest && p.encoded + Flatten(chunks) == p.encoded;
      QuietStep(0, done.1);
    } else {
      var next := p.(encoded := p.encoded + chunks[0]);
      PayloadConcat(p.encoded, chunks[0]);
      HandleData(p, maxBytes, hash, chunks[0]);
      FeedChunks(next, maxBytes, hash, chunks[1..], rest);
      FeedCons(Some(p), maxBytes, hash, PREFIX + chunks[0], Prefixed(chunks[1..]) + rest);
      assert Prefixed(chunks) + rest == [PREFIX + chunks[0]] + (Prefixed(chunks[1..]) + rest);
      assert next.encoded + Flatten(chunks[1..]) == p.encoded + Flatten(chunks);
      QuietStep(|chunks| - 1, done.1);
    }
  }

  lemma {:induction false} BeginFieldsAre(size: nat, digest: seq<byte>)
    ensures BeginFields(size, digest) == ["bytes=" + Decimal(size), "sha256=" + HexEncode(digest)]
    ensures AllWords(BeginFields(size, digest)) && IsWord("begin")
  {
    HexIsWord(digest);
    assert IsWord("begin");
    hide Decimal, HexEncode;
    var n, h := Decimal(size), HexEncode(digest);
    assert NoWhitespace(n) by {
      assert forall i :: 0 <= i < |n| ==> IsDigit(n[i]);
    }
    assert IsWord("bytes") && IsWord("sha256");
    GpuRoundTrip.FieldWord("bytes", n);
    GpuRoundTrip.FieldWord("sha256", h);
    hide IsWord, NoWhitespace;
    var pairs := [("bytes", n), ("sha256", h)];
    assert pairs[1..] == [("sha256", h)] && pairs[1..][1..] == [];
    assert W.FieldWords(pairs[1..][1..]) == [];
    assert W.FieldWords(pairs[1..]) == ["sha256" + "=" + h];
    assert BeginFields(size, digest) == ["bytes" + "=" + n] + W.FieldWords(pairs[1..]);
    assert "bytes" + "=" + n == "bytes=" + n && "sha256" + "=" + h == "sha256=" + h;
  }

  lemma {:induction false} ReadBeginFields(size: nat, digest: seq<byte>)
    requires 0 < size <= Json.USIZE_MAX
    ensures ReadBegin(BeginFields(size, digest), Announced(None, None)) == Ok(Announced(Some(size), Some(HexEncode(digest))))
  {
    BeginFieldsAre(size, digest);
    ParseUnsignedOfDecimal(size, Json.USIZE_MAX);
    hide Decimal, HexEncode, BeginFields, AllWords, ParseUnsigned, IsWord;
    var n, h := Decimal(size), HexEncode(digest);
    assert "bytes=" + n == "bytes" + ['='] + n && "sha256=" + h == "sha256" + ['='] + h;
    SplitOnceOfJoin("bytes", '=', n);
    SplitOnceOfJoin("sha256", '=', h);
    hide SplitOnce;
    var parts := BeginFields(size, digest);
    assert parts[1..] == ["sha256=" + h] && parts[1..][1..] == [];
    assert |"bytes"| != |"sha256"|;
    assert ReadBegin(parts[1..], Announced(Some(size), None)) == Ok(Announced(Some(size), Some(h)));
  }

  lemma {:induction false} HexIsAscii(digest: seq<byte>)
    ensures Utf8.Len(HexEncode(digest)) == 2 * |digest|
  {
    if digest != [] {
      HexIsAscii(digest[1..]);
      var s := HexEncode(digest);
      Utf8.EncodeConcat(s[..2], s[2..]);
      assert s == s[..2] + s[2..] && s[2..] == HexEncode(digest[1..]);
      Utf8.AsciiLen(s[..2]);
    }
  }

  lemma {:induction false} BeginShape(size: nat, digest: seq<byte>)
    ensures AllWords(BeginWords(size, digest))
    ensures Join(BeginWords(size, digest), " ") == "begin" + " " + Join(BeginFields(size, digest), " ")
  {
    BeginFieldsAre(size, digest);
    hide IsWord, BeginFields;
    var fields, words := BeginFields(size, digest), BeginWords(size, digest);
    assert |fields| == 2 && words[1..] == fields;
    assert forall i :: 0 <= i < |words| ==> words[i] == if i == 0 then "begin" else fields[i - 1];
  }

  lemma {:induction false} BeginIsRead(size: nat, digest: seq<byte>)
    requires 0 < size <= Json.USIZE_MAX && |digest| == 32
    ensures var t := Join(BeginWords(size, digest), " ");
            t != [] && Trim(t) == t && "begin" <= t && ParseBegin(t[5..]) == Ok((size, digest))
  {
    hide IsWord, HexEncode, HexDecode, Utf8.Len, ReadBegin, BeginFields, AllWords, Join, Words, Trim, IsTrimmed, IsLine;
    var fields, words := BeginFields(size, digest), BeginWords(size, digest);
    BeginFieldsAre(size, digest);
    ReadBeginFields(size, digest);
    HexDecodeOfEncode(digest);
    HexIsAscii(digest);
    BeginShape(size, digest);
    var t, tail := Join(words, " "), Join(fields, " ");
    assert t[5..] == " " + tail;
    hide BeginWords;
    WordsOfJoin(fields);
    WordsSkipSpace(tail);
    assert ParseBegin(t[5..]) == Ok((size, digest));
    GpuRoundTrip.WordLineIsLine(words);
    TrimOfTrimmed(t);
  }

  lemma {:induction false} HandleBegin(pending: Option<Pending>, maxBytes: nat, hash: Hash, bytes: seq<byte>)
    requires 0 < |bytes| <= maxBytes <= Json.USIZE_MAX && |hash(bytes)| == 32
    ensures Handle(pending, maxBytes, hash, Join(BeginWords(|bytes|, hash(bytes)), " "))
         == (Some(Pending(|bytes|, hash(bytes), [])), Ok(Started(|bytes|)))
  {
    hide BeginWords, Join, Trim, ParseBegin, Conclude, Utf8.Len, EncodedLen;
    BeginIsRead(|bytes|, hash(bytes));
  }

  lemma {:induction false} PayloadOfEncode(bytes: seq<byte>)
    ensures IsPayload(Base64.Encode(bytes)) && IsPayload([])
    ensures |Base64.Encode(bytes)| == EncodedLen(|bytes|)
  {
    hide Base64.Encode, Base64.IsSymbol;
    Base64.EncodedLen(bytes);
    Base64.EncodedSymbols(bytes);
  }

  lemma {:induction false} PrefixedLen(cs: seq<string>)
    ensures |Prefixed(cs)| == |cs|
    decreases |cs|
  {
    if cs != [] {
      PrefixedLen(cs[1..]);
    }
  }

  lemma {:induction false} HandleEnd(p: Pending, maxBytes: nat, hash: Hash)
    ensures Handle(Some(p), maxBytes, hash, "end") == (None, Conclude(p, hash))
  {
    var e := "end";
    assert IsTrimmed(e) && !("begin" <= e);
    hide IsTrimmed, Trim, Conclude, ParseBegin;
    TrimOfTrimmed(e);
  }

  lemma {:induction false} ConcludePublished(s: W.Snapshot, hash: Hash)
    requires GpuRoundTrip.Printable(s)
    ensures var bytes := W.Wire(s);
            Conclude(Pending(|bytes|, hash(bytes), Base64.Encode(bytes)), hash)
            == Ok(Complete(|bytes|, HexEncode(hash(bytes)), s))
  {
    hide W.Wire, W.Parse, Base64.Encode, Base64.Decode, HexEncode, GpuRoundTrip.Printable;
    Base64.DecodeOfEncode(W.Wire(s));
    GpuRoundTrip.RoundTrip(s);
  }

  lemma {:induction false} WireNotEmpty(s: W.Snapshot)
    ensures W.Wire(s) != []
  {
    hide Join, Utf8.Encode, W.NodeLines, W.ModelLines, W.TailLines;
    var lines := W.WireLines(s);
    assert |lines| >= 1;
    assert W.Unlines(lines) == lines[0] + "\n" + W.Unlines(lines[1..]);
    assert |W.Wire(s)| >= |W.Unlines(lines)| >= 1;
  }

  /**
   Whatever the receiver was doing before, the published lines of a snapshot make it report the start,
   stay quiet through the data, and complete with that very snapshot, leaving nothing pending.
   */
  lemma {:induction false} PublishDelivers(s: W.Snapshot, limit: nat, pending: Option<Pending>, maxBytes: nat, hash: Hash)
    requires GpuRoundTrip.Printable(s) && limit >= 8
    requires |W.Wire(s)| <= maxBytes <= Json.USIZE_MAX && EncodedLen(|W.Wire(s)|) <= Json.USIZE_MAX
    requires |hash(W.Wire(s))| == 32
    ensures var bytes := W.Wire(s);
            var lines := PublishLines(bytes, limit, hash(bytes));
            Feed(pending, maxBytes, hash, lines)
            == (None, [Ok(Started(|bytes|))] + (Quiet(|lines| - 2) + [Ok(Complete(|bytes|, HexEncode(hash(bytes)), s))]))
  {
    hide W.Wire, Feed, Handle, Base64.Encode, HexEncode, Conclude, BeginWords, Join, Chunks, EncodedLen, IsPayload, Prefixed, Flatten, GpuRoundTrip.Printable;
    var bytes := W.Wire(s);
    var digest := hash(bytes);
    var begin, p := Join(BeginWords(|bytes|, digest), " "), Pending(|bytes|, digest, []);
    var full := p.(encoded := Base64.Encode(bytes));
    var chunks := Chunks(Base64.Encode(bytes), ChunkLen(limit));
    WireNotEmpty(s);
    HandleBegin(pending, maxBytes, hash, bytes);
    FeedCons(pending, maxBytes, hash, begin, Prefixed(chunks) + ["end"]);
    PayloadOfEncode(bytes);
    ChunksOfPayload(Base64.Encode(bytes), ChunkLen(limit));
    FeedChunks(p, maxBytes, hash, chunks, ["end"]);
    HandleEnd(full, maxBytes, hash);
    FeedCons(Some(full), maxBytes, hash, "end", []);
    ConcludePublished(s, hash);
    PrefixedLen(chunks);
    assert [] + Base64.Encode(bytes) == Base64.Encode(bytes);
    FeedNone(None, maxBytes, hash);
    var complete: Result<Update, ReceiveError> := Ok(Complete(|bytes|, HexEncode(digest), s));
    assert ["end"] + [] == ["end"] && [complete] + [] == [complete];
    assert Feed(Some(full), maxBytes, hash, ["end"]) == (None, [complete]);
  }

  lemma {:induction false} FeedNone(pending: Option<Pending>, maxBytes: nat, hash: Hash)
    ensures Feed(pending, maxBytes, hash, []) == (pending, [])
  {}

  // ----- the receiver on any lines at all -----

  /** A pending transfer is no larger than allowed, and its text no longer than its announced size encodes to. */
  predicate WithinBounds(pending: Option<Pending>, maxBytes: nat) {
    pending.Some? ==>
      && pending.value.expectedBytes <= maxBytes
      && Utf8.Len(pending.value.encoded) <= EncodedLen(pending.value.expectedBytes)
  }

  lemma {:induction false} HandleKeepsBounds(pending: Option<Pending>, maxBytes: nat, hash: Hash, line: string)
    requires WithinBounds(pending, maxBytes)
    ensures WithinBounds(Handle(pending, maxBytes, hash, line).0, maxBytes)
  {
    hide ParseBegin, Conclude, Trim, EncodedLen, Utf8.Encode;
    if pending.Some? && PREFIX <= Trim(line) {
      Utf8.EncodeConcat(pending.value.encoded, Trim(line)[|PREFIX|..]);
    }
    assert Utf8.Len([]) == 0 by {
      Utf8.AsciiLen([]);
    }
  }

  /** Whatever lines arrive, what the receiver holds stays within what it allowed and was announced. */
  lemma {:induction false} FeedKeepsBounds(pending: Option<Pending>, maxBytes: nat, hash: Hash, lines: seq<string>)
    requires WithinBounds(pending, maxBytes)
    ensures WithinBounds(Feed(pending, maxBytes, hash, lines).0, maxBytes)
    decreases |lines|
  {
    hide Handle, WithinBounds;
    if lines != [] {
      HandleKeepsBounds(pending, maxBytes, hash, lines[0]);
      FeedKeepsBounds(Handle(pending, maxBytes, hash, lines[0]).0, maxBytes, hash, lines[1..]);
    }
  }

  /**
   A completion vouches for its snapshot: the collected text is the Base64 of bytes with the announced size and
   digest, the snapshot is what those bytes parse to, and printing it gives a snapshot that parses back.
   */
  lemma {:induction false} CompletionIsSound(pending: Option<Pending>, maxBytes: nat, hash: Hash, line: string)
    requires var r := Handle(pending, maxBytes, hash, line).1; r.Ok? && r.value.Complete?
    ensures var done := Handle(pending, maxBytes, hash, line).1.value;
            && pending.Some?
            && Handle(pending, maxBytes, hash, line).0 == None
            && var p := pending.value;
               exists bytes :: && Base64.Encode(bytes) == p.encoded
                               && |bytes| == p.expectedBytes == done.bytes
                               && hash(bytes) == p.expectedHash && done.sha256 == HexEncode(p.expectedHash)
                               && W.Parse(bytes) == Ok(done.snapshot)
                               && GpuRoundTrip.Printable(done.snapshot)
  {
    hide ParseBegin, Trim, EncodedLen, Utf8.Len, W.Parse, GpuRoundTrip.Printable, HexEncode;
    var bytes := Base64.Decode(pending.value.encoded).value;
    hide Base64.Decode, Base64.Encode;
    GpuRoundTrip.AcceptedIsPrintable(bytes);
  }

  // ----- where a completion comes from -----

  /** The pending transfer after a receiver has seen these lines from its start. */
  function PendingAfter(lines: seq<string>, maxBytes: nat, hash: Hash): Option<Pending>
    decreases |lines|
  {
    if lines == [] then None
    else Handle(PendingAfter(lines[..|lines| - 1], maxBytes, hash), maxBytes, hash, lines[|lines| - 1]).0
  }

  /** What the receiver answered to the last of these lines. */
  function Answer(lines: seq<string>, maxBytes: nat, hash: Hash): Result<Update, ReceiveError>
    requires lines != []
  {
    Handle(PendingAfter(lines[..|lines| - 1], maxBytes, hash), maxBytes, hash, lines[|lines| - 1]).1
  }

  /** The text a data line carries; other lines carry none. */
  function DataOf(line: string): string {
    if PREFIX <= Trim(line) then Trim(line)[|PREFIX|..] else ""
  }

  /** The joined text of the lines after the first `from` that were taken without an error. */
  function Collected(lines: seq<string>, from: nat, maxBytes: nat, hash: Hash): string
    decreases |lines|
  {
    if |lines| <= from then ""
    else
      Collected(lines[..|lines| - 1], from, maxBytes, hash)
      + if Answer(lines, maxBytes, hash) == Ok(Nothing) then DataOf(lines[|lines| - 1]) else ""
  }

  /** The last begin line that was taken. */
  function LastBegin(lines: seq<string>, maxBytes: nat, hash: Hash): Option<nat>
    decreases |lines|
  {
    if lines == [] then None
    else
      var answer := Answer(lines, maxBytes, hash);
      if answer.Ok? && answer.value.Started? then Some(|lines| - 1) else LastBegin(lines[..|lines| - 1], maxBytes, hash)
  }

  /** What one line does to a pending transfer, by its answer. */
  lemma {:induction false} HandleEffect(pending: Option<Pending>, maxBytes: nat, hash: Hash, line: string)
    ensures var (next, r) := Handle(pending, maxBytes, hash, line);
            && (r.Ok? && r.value.Started? ==>
                  && "begin" <= Trim(line) && next.Some? && next.value.encoded == ""
                  && ParseBegin(Trim(line)[5..]) == Ok((next.value.expectedBytes, next.value.expectedHash))
                  && r.value.bytes == next.value.expectedBytes)
            && (!(r.Ok? && r.value.Started?) && next.Some? ==>
                  && pending.Some?
                  && next.value == pending.value.(encoded := pending.value.encoded + if r == Ok(Nothing) then DataOf(line) else ""))
  {
    hide ParseBegin, Trim, EncodedLen, Utf8.Len;
    if pending.Some? {
      assert pending.value.encoded + "" == pending.value.encoded;
    }
  }

  /** A begin line announces this size and digest. */
  predicate Announces(line: string, size: nat, digest: seq<byte>) {
    "begin" <= Trim(line) && ParseBegin(Trim(line)[5..]) == Ok((size, digest))
  }

  /** What is pending was announced by the last begin line taken, and holds the data lines taken since, joined. */
  lemma {:induction false} PendingIsCollected(lines: seq<string>, maxBytes: nat, hash: Hash)
    ensures var pending, j := PendingAfter(lines, maxBytes, hash), LastBegin(lines, maxBytes, hash);
            pending.Some? ==>
              && j.Some? && j.value < |lines|
              && Announces(lines[j.value], pending.value.expectedBytes, pending.value.expectedHash)
              && pending.value.encoded == Collected(lines, j.value + 1, maxBytes, hash)
    decreases |lines|
  {
    hide Handle, ParseBegin, Trim, DataOf;
    if lines != [] {
      var n := |lines| - 1;
      PendingIsCollected(lines[..n], maxBytes, hash);
      HandleEffect(PendingAfter(lines[..n], maxBytes, hash), maxBytes, hash, lines[n]);
    }
  }

  /** Feeding the lines one by one ends in that pending transfer. */
  lemma {:induction false} FeedIsPendingAfter(done: seq<string>, lines: seq<string>, maxBytes: nat, hash: Hash)
    ensures Feed(PendingAfter(done, maxBytes, hash), maxBytes, hash, lines).0 == PendingAfter(done + lines, maxBytes, hash)
    decreases |lines|
  {
    hide Handle;
    if lines == [] {
      assert done + lines == done;
    } else {
      var next := done + [lines[0]];
      assert next[..|next| - 1] == done;
      assert next + lines[1..] == done + lines;
      FeedIsPendingAfter(next, lines[1..], maxBytes, hash);
    }
  }

  /**
   Over any lines a receiver is fed from its start: a completion's snapshot is what the bytes parse to whose Base64
   is the joined text of the data lines taken since the last begin line, with the size and digest that line announced.
   */
  lemma {:induction false} CompletionOverRun(lines: seq<string>, maxBytes: nat, hash: Hash)
    requires lines != [] && Answer(lines, maxBytes, hash).Ok? && Answer(lines, maxBytes, hash).value.Complete?
    ensures var before := lines[..|lines| - 1];
            var j, done := LastBegin(before, maxBytes, hash), Answer(lines, maxBytes, hash).value;
            && j.Some? && j.value < |before|
            && exists bytes :: && Announces(lines[j.value], |bytes|, hash(bytes))
                               && Base64.Encode(bytes) == Collected(before, j.value + 1, maxBytes, hash)
                               && done.bytes == |bytes| && done.sha256 == HexEncode(hash(bytes))
                               && W.Parse(bytes) == Ok(done.snapshot)
  {
    hide Handle, Collected, LastBegin, Announces, Base64.Encode, W.Parse, HexEncode, GpuRoundTrip.Printable;
    var before := lines[..|lines| - 1];
    PendingIsCollected(before, maxBytes, hash);
    CompletionIsSound(PendingAfter(before, maxBytes, hash), maxBytes, hash, lines[|lines| - 1]);
  }
}
