/**
 UTF-8 safe truncation as it is written three times, in apps/coh/src/run.rs, apps/cohsh/src/lib.rs and
 apps/host-sidecar-bridge/src/lib.rs, and the run breadcrumb that shrinks its command until the line fits.
 */
module Truncation {
  import opened Outcome
  import opened Utf8
  import Json
  import Text

  /** The reference: the longest prefix of whole characters within the byte limit. */
  function Truncated(s: string, limit: nat): string {
    s[..CharIndex(s, limit)]
  }

  predicate IsLongestPrefix(s: string, limit: nat, r: string) {
    && r <= s && Len(r) <= limit
    && forall k :: |r| < k <= |s| ==> Len(s[..k]) > limit
  }

  /** `Truncated` is that prefix, and nothing else is. */
  lemma {:induction false} TruncatedIsLongest(s: string, limit: nat, r: string)
    ensures IsLongestPrefix(s, limit, r) <==> r == Truncated(s, limit)
  {
    hide Encode, CharIndex;
    var n := CharIndex(s, limit);
    CharIndexIs(s, limit);
    forall k | n < k <= |s| ensures Len(s[..k]) > limit {
      PrefixLenMonotone(s, n + 1, k);
    }
    assert IsLongestPrefix(s, limit, s[..n]);
    if IsLongestPrefix(s, limit, r) {
      assert r == s[..|r|] && Len(s[..n]) <= limit;
    }
  }

  lemma {:induction false} WholeFits(s: string, limit: nat)
    requires Len(s) <= limit
    ensures Truncated(s, limit) == s
  {
    TruncatedIsLongest(s, limit, s);
  }

  /** The character loops stop where the reference does. */
  lemma {:induction false} StopsAt(s: string, limit: nat, i: nat)
    requires i <= |s| && PrefixLen(s, i) <= limit
    requires i == |s| || PrefixLen(s, i) + Width(s[i]) > limit
    ensures Truncated(s, limit) == s[..i]
  {
    hide Encode, CharIndex;
    if i < |s| {
      PrefixLenStep(s, i);
    }
    forall k | i < k <= |s| ensures Len(s[..k]) > limit {
      PrefixLenMonotone(s, i + 1, k);
    }
    TruncatedIsLongest(s, limit, s[..i]);
  }

  /** `truncate_to_bytes`: characters are copied while they fit. */
  method TruncateToBytes(input: string, maxBytes: nat) returns (out: string)
    ensures out == Truncated(input, maxBytes)
  {
    hide Encode, CharIndex;
    if Len(input) <= maxBytes {
      WholeFits(input, maxBytes);
      return input;
    }
    out := "";
    var count, i := 0, 0;
    PrefixLenZero(input);
    while i < |input|
      invariant i <= |input| && out == input[..i] && count == PrefixLen(input, i) <= maxBytes
    {
      var len := Width(input[i]);
      if count + len > maxBytes {
        break;
      }
      PrefixLenStep(input, i);
      out := out + [input[i]];
      count := count + len;
      i := i + 1;
    }
    StopsAt(input, maxBytes, i);
  }

  /** `truncate_to_boundary`: the end of the last character that fits, then one slice of the bytes. */
  method TruncateToBoundary(input: string, maxBytes: nat) returns (out: seq<byte>)
    ensures out == Encode(Truncated(input, maxBytes))
  {
    hide Encode, CharIndex;
    var bytes := Encode(input);
    if |bytes| <= maxBytes {
      WholeFits(input, maxBytes);
      return bytes;
    }
    var end, i := 0, 0;
    PrefixLenZero(input);
    while i < |input|
      invariant i <= |input| && end == PrefixLen(input, i) <= maxBytes
    {
      var next := end + Width(input[i]);
      if next > maxBytes {
        break;
      }
      PrefixLenStep(input, i);
      end := next;
      i := i + 1;
    }
    StopsAt(input, maxBytes, i);
    PrefixBytes(input, i);
    out := bytes[..end];
  }

  /** `truncate_text`: from the limit backwards to a character boundary. */
  method TruncateText(input: string, limit: nat) returns (out: seq<byte>)
    ensures out == Encode(Truncated(input, limit))
  {
    hide Encode, CharIndex, Floor;
    var bytes := Encode(input);
    if |bytes| <= limit {
      WholeFits(input, limit);
      return bytes;
    }
    var end := RoundDown(bytes, limit);
    FloorIsPrefix(input, limit);
    PrefixBytes(input, CharIndex(input, limit));
    out := bytes[..end];
  }

  const STATUS_LINE_CAP: nat := 256

  /** `ensure_line_terminated`: at most the cap in bytes, the newline included. */
  method EnsureLineTerminated(line: string) returns (out: seq<byte>)
    ensures out == Encode(Truncated(Text.Trim(line), 255)) + [10]
    ensures |out| <= 256
  {
    hide Encode, Truncated, Text.Trim;
    var trimmed := Text.Trim(line);
    TruncatedIsLongest(trimmed, STATUS_LINE_CAP - 1, Truncated(trimmed, STATUS_LINE_CAP - 1));
    out := TruncateToBoundary(trimmed, STATUS_LINE_CAP - 1);
    out := out + [10];
  }

  // ----- the run breadcrumb -----

  datatype Policy = Policy(schema: string, maxLineBytes: nat, maxCommandBytes: nat)
  datatype Breadcrumb = Breadcrumb(event: string, status: string, exitCode: Option<int>)

  function Members(p: Policy, b: Breadcrumb, command: string): seq<(string, Json.Printed)> {
    [("schema", Json.PStr(Json.Serde, p.schema)), ("event", Json.PStr(Json.Serde, b.event)),
     ("command", Json.PStr(Json.Serde, command))] + Tail(b)
  }

  function Tail(b: Breadcrumb): seq<(string, Json.Printed)> {
    [("status", Json.PStr(Json.Serde, b.status))]
    + if b.exitCode.Some? then [("exit_code", Json.PInt(b.exitCode.value))] else []
  }

  /** The breadcrumb as JSON, for a command cut to `limit` bytes. */
  function Entry(p: Policy, b: Breadcrumb, command: string, limit: nat): string {
    Json.ObjectText(Members(p, b, Truncated(command, limit)), "")
  }

  predicate Fits(p: Policy, b: Breadcrumb, command: string, limit: nat) {
    Len(Entry(p, b, command, limit)) <= p.maxLineBytes
  }

  lemma {:induction false} EntryLen(p: Policy, b: Breadcrumb, command: string)
    ensures Len(Json.ObjectText(Members(p, b, command), ""))
         == Len(Json.ObjectText(Members(p, b, ""), "")) + Json.EscapedLen(Json.Serde, command)
  {
    hide Encode, Json.MembersLen, Json.ObjectText, Tail;
    var front := Members(p, b, "")[..2];
    var with, without := [("command", Json.PStr(Json.Serde, command))], [("command", Json.PStr(Json.Serde, ""))];
    assert Members(p, b, command) == front + with + Tail(b) && Members(p, b, "") == front + without + Tail(b);
    Json.MembersLenConcat(front + with, Tail(b));
    Json.MembersLenConcat(front + without, Tail(b));
    Json.LastStringLen(front, "command", command);
    Json.LastStringLen(front, "command", "");
    Json.EscapedLenEmpty(Json.Serde);
    Json.ObjectTextLen(Members(p, b, command), "");
    Json.ObjectTextLen(Members(p, b, ""), "");
  }

  /** A smaller command limit never makes the line longer. */
  lemma {:induction false} FitsDownward(p: Policy, b: Breadcrumb, command: string, i: nat, j: nat)
    requires i <= j && Fits(p, b, command, j)
    ensures Fits(p, b, command, i)
  {
    hide Encode, Json.ObjectText, Members, CharIndex, Json.EscapedLen;
    var m, n := CharIndex(command, i), CharIndex(command, j);
    CharIndexMonotone(command, i, j);
    EntryLen(p, b, command[..m]);
    EntryLen(p, b, command[..n]);
    Json.EscapedLenMonotone(Json.Serde, command, m, n);
  }

  lemma {:induction false} CharIndexMonotone(s: string, i: nat, j: nat)
    requires i <= j
    ensures CharIndex(s, i) <= CharIndex(s, j)
  {
    if s != [] && i >= Width(s[0]) {
      CharIndexMonotone(s[1..], i - Width(s[0]), j - Width(s[0]));
    }
  }

  /**
   `build_breadcrumb_line`: the line for the largest command limit whose JSON fits, and a failure exactly
   when even the empty command does not fit.
   */
  method BuildBreadcrumbLine(p: Policy, b: Breadcrumb, command: string) returns (line: Option<seq<byte>>, ghost used: nat)
    ensures line.Some? <==> Fits(p, b, command, 0)
    ensures line.Some? ==>
              && used <= p.maxCommandBytes && used <= Len(command)
              && line == Some(Encode(Entry(p, b, command, used)) + [10])
              && |line.value| <= p.maxLineBytes + 1
              && forall limit: nat :: used < limit <= p.maxCommandBytes && limit <= Len(command) ==> !Fits(p, b, command, limit)
  {
    hide Encode, Fits, Entry, Truncated;
    var limit: nat := if p.maxCommandBytes > Len(command) then Len(command) else p.maxCommandBytes;
    used := limit;
    while true
      invariant limit <= p.maxCommandBytes && limit <= Len(command)
      invariant forall l: nat :: limit < l <= p.maxCommandBytes && l <= Len(command) ==> !Fits(p, b, command, l)
      decreases limit
    {
      var trimmed := TruncateToBytes(command, limit);
      EntryIs(p, b, command, limit);
      var json := Json.ObjectText(Members(p, b, trimmed), "");
      if Len(json) <= p.maxLineBytes {
        FitsDownward(p, b, command, 0, limit);
        return Some(Encode(json) + [10]), limit;
      }
      if limit == 0 {
        return None, 0;
      }
      limit := limit - 1;
    }
  }

  lemma {:induction false} EntryIs(p: Policy, b: Breadcrumb, command: string, limit: nat)
    ensures Entry(p, b, command, limit) == Json.ObjectText(Members(p, b, Truncated(command, limit)), "")
    ensures Fits(p, b, command, limit) <==> Len(Entry(p, b, command, limit)) <= p.maxLineBytes
  {}

  lemma {:induction false} PlainKeys()
    ensures Json.IsPlain("schema") && Json.IsPlain("event") && Json.IsPlain("command") && Json.IsPlain("status") && Json.IsPlain("exit_code")
  {}

  function Exit(b: Breadcrumb): seq<Json.Member> {
    match b.exitCode
    case None => []
    case Some(i) => [Json.Member("exit_code", Json.Number(if i < 0 then "-" + Text.Decimal(-i) else Text.Decimal(i)))]
  }

  /** What a breadcrumb says: five members at most, in order. */
  function Said(p: Policy, b: Breadcrumb, command: string): seq<Json.Member> {
    [Json.Member("schema", Json.Str(p.schema)), Json.Member("event", Json.Str(b.event)),
     Json.Member("command", Json.Str(command)), Json.Member("status", Json.Str(b.status))] + Exit(b)
  }

  lemma {:induction false} MembersSay(p: Policy, b: Breadcrumb, command: string)
    ensures Json.Meanings(Members(p, b, command)) == Said(p, b, command)
  {
    hide Json.Meanings, Text.Decimal;
  }

  lemma {:induction false} MembersArePlain(p: Policy, b: Breadcrumb, command: string)
    ensures forall i :: 0 <= i < |Members(p, b, command)| ==> Json.IsPlain(Members(p, b, command)[i].0)
  {
    hide Json.IsPlain;
    PlainKeys();
  }

  /** A breadcrumb read as JSON gives the event, the command as far as it was kept, the status and the exit code back. */
  lemma {:induction false} EntryReadsBack(p: Policy, b: Breadcrumb, command: string, limit: nat)
    ensures Json.ReadDocument(Entry(p, b, command, limit)) == Some(Json.Object(Said(p, b, Truncated(command, limit))))
  {
    hide Json.ReadDocument, Json.ObjectText, Json.IsPlain, Truncated, Json.SkipWs, Json.Meanings, Said, Members;
    var kept := Truncated(command, limit);
    MembersArePlain(p, b, kept);
    MembersSay(p, b, kept);
    MembersSome(p, b, kept);
    SkipNothing();
    Json.ReadObject(Members(p, b, kept), "");
  }

  lemma {:induction false} MembersSome(p: Policy, b: Breadcrumb, command: string)
    ensures Members(p, b, command) != []
  {}

  lemma {:induction false} SkipNothing()
    ensures Json.SkipWs("") == []
  {}
}
