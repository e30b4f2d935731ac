/**
 Base64 text cut into bounded console lines, as the GPU bridge publisher and the CAS uploader do it:
 `b64:` followed by a chunk whose length is a multiple of four.
 */
module Framing {
  import opened Outcome
  import Base64
  import Text
  import Utf8

  type byte = Utf8.byte

  const PREFIX := "b64:"

  /** `slice::chunks`. */
  function Chunks(t: string, n: nat): seq<string>
    requires n > 0
    decreases |t|
  {
    if t == [] then [] else if |t| <= n then [t] else [t[..n]] + Chunks(t[n..], n)
  }

  /** The payload characters that fit beside the prefix, rounded down to whole Base64 groups. */
  function ChunkLen(limit: nat): (n: nat)
    ensures n % 4 == 0
    ensures limit >= 8 <==> n >= 4
    ensures limit >= 4 ==> |PREFIX| + n <= limit < |PREFIX| + n + 4
  {
    if limit < 4 then 0 else (limit - 4) / 4 * 4
  }

  function Prefixed(chunks: seq<string>): seq<string>
    decreases |chunks|
  {
    if chunks == [] then [] else [PREFIX + chunks[0]] + Prefixed(chunks[1..])
  }

  /** The frames of a payload. */
  function Frames(bytes: seq<byte>, n: nat): seq<string>
    requires n > 0
  {
    Prefixed(Chunks(Base64.Encode(bytes), n))
  }

  /** Each frame decoded on its own, the results joined. */
  function DecodeFrames(frames: seq<string>): Option<seq<byte>>
    decreases |frames|
  {
    if frames == [] then Some([])
    else if !(PREFIX <= frames[0]) then None
    else
      var head :- Base64.Decode(frames[0][|PREFIX|..]);
      var rest :- DecodeFrames(frames[1..]);
      Some(head + rest)
  }

  predicate Fits(frame: string, limit: nat) {
    Utf8.Len(frame) <= limit
  }

  lemma {:induction false} FrameFits(bytes: seq<byte>, limit: nat)
    requires |PREFIX| + |Base64.Encode(bytes)| <= limit
    ensures Fits(PREFIX + Base64.Encode(bytes), limit)
  {
    Base64.EncodedSymbols(bytes);
    hide Base64.Encode;
    var t := Base64.Encode(bytes);
    assert forall i :: 0 <= i < |t| ==> t[i] as int < 0x80 by {
      forall i | 0 <= i < |t| ensures t[i] as int < 0x80 {
        assert Base64.IsSymbol(t[i]);
      }
    }
    Utf8.AsciiLen(PREFIX + t);
  }

  /** What a chunk of at most `n` characters holds: `n / 4 * 3` bytes of the payload, or the rest of it. */
  function ChunkBytes(n: nat): nat {
    n / 4 * 3
  }

  lemma {:induction false} FramesStep(bytes: seq<byte>, n: nat)
    requires n > 0 && n % 4 == 0 && bytes != []
    ensures |Base64.Encode(bytes)| <= n ==> Frames(bytes, n) == [PREFIX + Base64.Encode(bytes)]
    ensures |Base64.Encode(bytes)| > n ==>
              var k := ChunkBytes(n);
              && k < |bytes| && |Base64.Encode(bytes[..k])| == n
              && Frames(bytes, n) == [PREFIX + Base64.Encode(bytes[..k])] + Frames(bytes[k..], n)
  {
    var t := Base64.Encode(bytes);
    Base64.EncodedLen(bytes);
    hide Base64.Encode;
    if |t| > n {
      Base64.CutText(bytes, n / 4);
      assert t[..n] == Base64.Encode(bytes[..ChunkBytes(n)]);
      assert t[n..] == Base64.Encode(bytes[ChunkBytes(n)..]);
      var cs := Chunks(t, n);
      assert cs[1..] == Chunks(t[n..], n);
    } else {
      assert Chunks(t, n) == [t];
      assert Prefixed([t]) == [PREFIX + t] + Prefixed([]);
    }
  }

  /** Every frame is within the limit, and decoding frame by frame gives the payload back. */
  lemma {:induction false} FramesRefineEncoding(bytes: seq<byte>, limit: nat)
    requires limit >= 8
    ensures forall i :: 0 <= i < |Frames(bytes, ChunkLen(limit))| ==> Fits(Frames(bytes, ChunkLen(limit))[i], limit)
    ensures DecodeFrames(Frames(bytes, ChunkLen(limit))) == Some(bytes)
    decreases |bytes|
  {
    var n := ChunkLen(limit);
    if bytes != [] {
      FramesStep(bytes, n);
      hide Frames, Base64.Encode, Base64.Decode, Fits;
      var t := Base64.Encode(bytes);
      if |t| <= n {
        Base64.DecodeOfEncode(bytes);
        FrameFits(bytes, limit);
        assert (PREFIX + t)[|PREFIX|..] == t;
        assert bytes + [] == bytes;
      } else {
        var k := ChunkBytes(n);
        var head := Base64.Encode(bytes[..k]);
        Base64.DecodeOfEncode(bytes[..k]);
        FrameFits(bytes[..k], limit);
        assert (PREFIX + head)[|PREFIX|..] == head;
        FramesRefineEncoding(bytes[k..], limit);
        assert bytes[..k] + bytes[k..] == bytes;
      }
    }
  }

  lemma {:induction false} PrefixedSnoc(cs: seq<string>, c: string)
    ensures Prefixed(cs + [c]) == Prefixed(cs) + [PREFIX + c]
    decreases |cs|
  {
    if cs == [] {
      assert (cs + [c])[1..] == [];
    } else {
      PrefixedSnoc(cs[1..], c);
      assert (cs + [c])[1..] == cs[1..] + [c];
    }
  }

  // ----- the CAS uploader -----

  const MAX_ECHO_PAYLOAD_BYTES: nat := 128
  const MAX_B64_CHUNK_LEN: nat := (MAX_ECHO_PAYLOAD_BYTES - 4) / 4 * 4

  datatype UploadError = SegmentTooLong(len: nat)

  /** `upload_b64_segments`: the lines written. Its length check never fires, for any payload. */
  method UploadSegments(payload: seq<byte>) returns (r: Result<seq<string>, UploadError>)
    ensures r == Ok(Frames(payload, 124))
    ensures forall i :: 0 <= i < |r.value| ==> Fits(r.value[i], 128)
    ensures DecodeFrames(r.value) == Some(payload)
  {
    hide Base64.Encode, DecodeFrames, Fits, Chunks, Utf8.Len;
    var encoded := Base64.Encode(payload);
    assert ChunkLen(MAX_ECHO_PAYLOAD_BYTES) == MAX_B64_CHUNK_LEN;
    FramesRefineEncoding(payload, MAX_ECHO_PAYLOAD_BYTES);
    var chunks := Chunks(encoded, MAX_B64_CHUNK_LEN);
    var written := [];
    for i := 0 to |chunks|
      invariant written == Prefixed(chunks[..i])
    {
      var line := PREFIX + chunks[i];
      assert chunks[..i + 1] == chunks[..i] + [chunks[i]];
      PrefixedSnoc(chunks[..i], chunks[i]);
      PrefixedAt(chunks, i);
      FitsIs(line, MAX_ECHO_PAYLOAD_BYTES);
      if Utf8.Len(line) > MAX_ECHO_PAYLOAD_BYTES {
        return Err(SegmentTooLong(Utf8.Len(line)));
      }
      written := written + [line];
    }
    assert chunks[..|chunks|] == chunks;
    r := Ok(written);
  }

  lemma {:induction false} PrefixedAt(cs: seq<string>, i: nat)
    requires i < |cs|
    ensures |Prefixed(cs)| == |cs| && Prefixed(cs)[i] == PREFIX + cs[i]
    decreases |cs|
  {
    if |cs| > 1 {
      PrefixedAt(cs[1..], if i > 0 then i - 1 else 0);
    }
  }

  lemma {:induction false} FitsIs(frame: string, limit: nat)
    ensures Fits(frame, limit) <==> Utf8.Len(frame) <= limit
  {}
}
