/**
 Tailing a file line by line (apps/cohsh/src/client.rs): reads of any size are buffered, complete lines
 queued, and one end marker follows the last line. The server may cut the file anywhere.
 */
module TailStream {
  import opened Outcome
  import opened Utf8
  import Text

  datatype Event = Line(text: string) | End
  datatype TailError = Transport | NotUtf8

  const NEWLINE: byte := 10

  // ----- what a tail should produce -----

  /** The newline-terminated pieces of the bytes, and a last fragment when it is not empty. */
  function RawLines(b: seq<byte>): seq<seq<byte>>
    decreases |b|
  {
    if b == [] then []
    else
      var i := Text.Find(b, NEWLINE);
      if i < |b| then [b[..i]] + RawLines(b[i + 1..]) else [b]
  }

  /** `decode_line`: UTF-8, less one trailing carriage return. */
  function DecodeLine(b: seq<byte>): Option<string> {
    var text :- Decode(b);
    Some(Text.StripCr(text))
  }

  function DecodeAll(raw: seq<seq<byte>>): Option<seq<string>>
    decreases |raw|
  {
    if raw == [] then Some([])
    else
      var head :- DecodeLine(raw[0]);
      var rest :- DecodeAll(raw[1..]);
      Some([head] + rest)
  }

  /** The lines of a file, when every one of them is UTF-8. */
  function FileLines(file: seq<byte>): Option<seq<string>> {
    DecodeAll(RawLines(file))
  }

  function After(done: seq<string>, rest: Option<seq<string>>): Option<seq<string>> {
    if rest.Some? then Some(done + rest.value) else None
  }

  lemma {:induction false} RawLinesStep(line: seq<byte>, rest: seq<byte>)
    requires NEWLINE !in line
    ensures RawLines(line + [NEWLINE] + rest) == [line] + RawLines(rest)
  {
    Text.FindInConcat(line, NEWLINE, rest);
    var b := line + [NEWLINE] + rest;
    assert b[..|line|] == line && b[|line| + 1..] == rest;
  }

  lemma {:induction false} LastFragment(b: seq<byte>)
    requires NEWLINE !in b
    ensures RawLines(b) == if b == [] then [] else [b]
  {
    assert forall i :: 0 <= i < |b| ==> b[i] != NEWLINE;
  }

  lemma {:induction false} DecodeAllCons(line: seq<byte>, raw: seq<seq<byte>>)
    ensures DecodeLine(line) == None ==> DecodeAll([line] + raw) == None
    ensures DecodeLine(line).Some? ==> DecodeAll([line] + raw) == After([DecodeLine(line).value], DecodeAll(raw))
  {
    hide DecodeLine;
    assert ([line] + raw)[1..] == raw;
  }

  lemma {:induction false} AfterAfter(a: seq<string>, b: seq<string>, rest: Option<seq<string>>)
    ensures After(a, After(b, rest)) == After(a + b, rest)
    ensures After([], rest) == rest
  {
    if rest.Some? {
      assert a + (b + rest.value) == a + b + rest.value && [] + rest.value == rest.value;
    }
  }

  /** One finished line moves from what is still to come to what is done; a bad one spoils the whole. */
  lemma {:induction false} FinishLine(done: seq<string>, line: seq<byte>, rest: seq<byte>)
    requires NEWLINE !in line
    ensures DecodeLine(line).Some? ==>
              After(done, FileLines(line + [NEWLINE] + rest)) == After(done + [DecodeLine(line).value], FileLines(rest))
    ensures DecodeLine(line) == None ==> FileLines(line + [NEWLINE] + rest) == None
  {
    hide RawLines, DecodeLine, DecodeAll, After;
    RawLinesStep(line, rest);
    DecodeAllCons(line, RawLines(rest));
    if DecodeLine(line).Some? {
      AfterAfter(done, [DecodeLine(line).value], FileLines(rest));
    }
  }

  /** A last fragment without a newline is the last line. */
  lemma {:induction false} FinishFragment(done: seq<string>, b: seq<byte>)
    requires NEWLINE !in b
    ensures b == [] ==> After(done, FileLines(b)) == Some(done)
    ensures b != [] && DecodeLine(b).Some? ==> After(done, FileLines(b)) == Some(done + [DecodeLine(b).value])
    ensures b != [] && DecodeLine(b) == None ==> FileLines(b) == None
  {
    hide RawLines, DecodeLine;
    LastFragment(b);
    assert done + [] == done;
    if b != [] {
      assert [b] + [] == [b];
      DecodeAllCons(b, []);
      if DecodeLine(b).Some? {
        assert [DecodeLine(b).value] + [] == [DecodeLine(b).value];
      }
    }
  }

  lemma {:induction false} EncodeHasNoNewline(t: string)
    requires '\n' !in t
    ensures NEWLINE !in Encode(t)
  {
    if t != [] {
      EncodeHasNoNewline(t[1..]);
      assert t[0] != '\n';
      var b := EncodeChar(t[0]);
      assert forall i :: 0 < i < |b| ==> IsContinuation(b[i]);
      assert b[0] != NEWLINE;
    }
  }

  lemma {:induction false} EncodeWithCr(t: string)
    ensures Encode(t + "\r") == Encode(t) + [13]
  {
    EncodeConcat(t, "\r");
    assert Encode("\r") == EncodeChar('\r') + Encode([]);
  }

  lemma {:induction false} DecodeText(t: string)
    ensures DecodeLine(Encode(t) + [13]) == Some(t)
    ensures (t == [] || t[|t| - 1] != '\r') ==> DecodeLine(Encode(t)) == Some(t)
  {
    hide Encode, Decode;
    EncodeWithCr(t);
    DecodeOfEncode(t + "\r");
    DecodeOfEncode(t);
    assert (t + "\r")[..|t|] == t;
  }

  /**
   The lines of a file are its texts: each ends in a newline, or in a carriage return and a newline, of which exactly
   one carriage return is dropped. The last may lack the newline.
   */
  lemma {:induction false} LinesOfText(t: string, rest: seq<byte>)
    requires '\n' !in t
    ensures FileLines(Encode(t) + [13, 10] + rest) == After([t], FileLines(rest))
    ensures (t == [] || t[|t| - 1] != '\r') ==> FileLines(Encode(t) + [10] + rest) == After([t], FileLines(rest))
    ensures FileLines(Encode(t) + [13]) == Some([t])
    ensures t != [] && t[|t| - 1] != '\r' ==> FileLines(Encode(t)) == Some([t])
  {
    hide Encode, FileLines, DecodeLine;
    EncodeHasNoNewline(t);
    DecodeText(t);
    var b := Encode(t);
    assert b + [13, 10] + rest == (b + [13]) + [NEWLINE] + rest;
    assert [] + [t] == [t];
    FinishLine([], b + [13], rest);
    FinishLine([], b, rest);
    FinishFragment([], b + [13]);
    FinishFragment([], b);
    WholeAfter(FileLines(b + [13] + [NEWLINE] + rest));
    WholeAfter(FileLines(b + [NEWLINE] + rest));
    WholeAfter(FileLines(b + [13]));
    WholeAfter(FileLines(b));
    if t != [] {
      assert |b| >= |t|;
    }
  }

  lemma {:induction false} WholeAfter(lines: Option<seq<string>>)
    ensures After([], lines) == lines
  {
    AfterAfter([], [], lines);
  }

  /** What the stream's variables say about the file: delivered and queued lines, then the rest. */
  predicate Consistent(file: seq<byte>, offset: nat, buffer: seq<byte>, done: seq<string>) {
    && offset <= |file|
    && NEWLINE !in buffer
    && After(done, FileLines(buffer + file[offset..])) == FileLines(file)
  }

  /**
   `extract_lines` as a function: whether every complete line decoded, the bytes left, the queue after.
   It stops at the first line that does not decode, which is dropped.
   */
  function Extract(buffer: seq<byte>, pending: seq<string>): (bool, seq<byte>, seq<string>)
    decreases |buffer|
  {
    var i := Text.Find(buffer, NEWLINE);
    if i == |buffer| then (true, buffer, pending)
    else
      var line := DecodeLine(buffer[..i]);
      if line.None? then (false, buffer[i + 1..], pending) else Extract(buffer[i + 1..], pending + [line.value])
  }

  lemma {:induction false} ExtractStep(line: seq<byte>, rest: seq<byte>, pending: seq<string>)
    requires NEWLINE !in line
    ensures Extract(line + [NEWLINE] + rest, pending)
         == if DecodeLine(line).None? then (false, rest, pending) else Extract(rest, pending + [DecodeLine(line).value])
  {
    hide DecodeLine;
    Text.FindInConcat(line, NEWLINE, rest);
    var b := line + [NEWLINE] + rest;
    assert b[..|line|] == line && b[|line| + 1..] == rest;
  }

  // ----- the server -----

  /** A file behind a fid. Reads return any non-empty piece that fits, and may fail. */
  class Server {
    const file: seq<byte>
    const msize: nat
    var clunks: nat

    constructor (file: seq<byte>, msize: nat)
      ensures this.file == file && this.msize == msize && clunks == 0
    {
      this.file, this.msize, clunks := file, msize, 0;
    }

    method Read(offset: nat, count: nat) returns (r: Result<seq<byte>, TailError>)
      requires 0 < count
      ensures r.Ok? && offset < |file| ==>
                1 <= |r.value| <= count && offset + |r.value| <= |file| && r.value == file[offset..offset + |r.value|]
      ensures r.Ok? && offset >= |file| ==> r.value == []
      ensures r.Err? ==> r.error == Transport
    {
      if * {
        return Err(Transport);
      }
      if offset >= |file| {
        return Ok([]);
      }
      var n: nat :| 1 <= n <= count && offset + n <= |file|;
      return Ok(file[offset..offset + n]);
    }

    method Clunk()
      modifies this
      ensures clunks == old(clunks) + 1
    {
      clunks := clunks + 1;
    }
  }

  // ----- the stream -----

  class Stream {
    const server: Server
    var offset: nat
    var buffer: seq<byte>
    var pending: seq<string>
    var finished: bool
    var closed: bool

    /** The lines handed out so far, and whether a line failed to decode. */
    ghost var delivered: seq<string>
    ghost var failed: bool
    /** The pieces read so far. */
    ghost var chunks: seq<seq<byte>>

    constructor (server: Server)
      requires server.clunks == 0 && server.msize > 0
      ensures this.server == server && Valid() && delivered == [] && !failed && !closed
    {
      this.server := server;
      offset, buffer, pending, finished, closed := 0, [], [], false, false;
      delivered, failed, chunks := [], false, [];
      new;
      ConsistentAtStart(server.file);
      TracedAtStart(server.file);
    }

    ghost predicate Valid()
      reads this, server
    {
      && offset <= |server.file| && server.msize > 0
      && |delivered| + |pending| + |buffer| <= offset
      && (finished ==> offset == |server.file|)
      && (failed ==> FileLines(server.file) == None)
      && (!failed ==> Consistent(server.file, offset, buffer, delivered + pending) && (finished ==> buffer == []))
      && (!failed ==> Traced(server.file, offset, buffer, delivered + pending, chunks, finished))
      && (closed ==> finished && pending == [])
      && server.clunks == if closed then 1 else 0
    }

    /** `extract_lines`: move every complete line from the buffer to the queue. */
    method ExtractLines(ghost rest: seq<byte>) returns (ok: bool)
      modifies this`buffer, this`pending
      ensures ok ==> NEWLINE !in buffer
                     && After(delivered + pending, FileLines(buffer + rest))
                        == After(delivered + old(pending), FileLines(old(buffer) + rest))
      ensures !ok ==> FileLines(old(buffer) + rest) == None
      ensures (ok, buffer, pending) == Extract(old(buffer), old(pending))
      ensures |pending| + |buffer| <= |old(pending)| + |old(buffer)|
    {
      hide FileLines, DecodeLine, Text.Find;
      var pos := Text.Find(buffer, NEWLINE);
      while pos < |buffer|
        invariant pos == Text.Find(buffer, NEWLINE)
        invariant Extract(buffer, pending) == Extract(old(buffer), old(pending))
        invariant |pending| + |buffer| <= |old(pending)| + |old(buffer)|
        invariant After(delivered + pending, FileLines(buffer + rest))
               == After(delivered + old(pending), FileLines(old(buffer) + rest))
        decreases |buffer|
      {
        var lineBytes, tail := buffer[..pos], buffer[pos + 1..];
        assert buffer + rest == lineBytes + [NEWLINE] + (tail + rest);
        FinishLine(delivered + pending, lineBytes, tail + rest);
        buffer := tail;
        var line := DecodeLine(lineBytes);
        if line.None? {
          return false;
        }
        assert delivered + pending + [line.value] == delivered + (pending + [line.value]);
        pending := pending + [line.value];
        pos := Text.Find(buffer, NEWLINE);
      }
      assert buffer[..pos] == buffer;
      return true;
    }

    /** The reading half of `next_event`: one read, buffered and split, or the end of the file noticed. */
    method Fill() returns (r: Result<(), TailError>)
      requires Valid() && !finished && pending == []
      modifies this
      ensures Valid() && delivered == old(delivered) && closed == old(closed)
      ensures failed == (old(failed) || r == Err(NotUtf8))
      ensures r == Err(NotUtf8) && !old(failed) ==> Joined(chunks) <= server.file && Play([], chunks) == Played(delivered, false)
      ensures r.Ok? ==> finished || offset > old(offset)
    {
      hide FileLines, DecodeLine, Consistent, Traced, Play, Joined, Extract;
      var chunk :- server.Read(offset, server.msize);
      if chunk == [] {
        finished := true;
        ghost var done := delivered + pending;
        assert done == delivered;
        if !failed {
          TracedAtEof(server.file, offset, buffer, done, chunks);
        }
        if buffer != [] {
          var line := DecodeLine(buffer);
          ConsistentAtEof(server.file, offset, buffer, done, failed);
          if line.None? {
            failed := true;
            return Err(NotUtf8);
          }
          assert done + [line.value] == delivered + (pending + [line.value]);
          pending := pending + [line.value];
          buffer := [];
        }
        return Ok(());
      }
      ghost var rest := server.file[offset + |chunk|..];
      assert buffer + server.file[offset..] == (buffer + chunk) + rest;
      ConsistentIs(server.file, offset, buffer, delivered + pending);
      assert delivered + pending == delivered;
      if !failed {
        TracedRead(server.file, offset, buffer, delivered, chunks, chunk);
      }
      offset := offset + |chunk|;
      buffer := buffer + chunk;
      chunks := chunks + [chunk];
      var ok := ExtractLines(rest);
      ConsistentIs(server.file, offset, buffer, delivered + pending);
      if !ok {
        failed := true;
        return Err(NotUtf8);
      }
      return Ok(());
    }

    /** `next_event` */
    method NextEvent() returns (r: Result<Option<Event>, TailError>)
      requires Valid()
      modifies this, server
      ensures Valid()
      ensures failed == (old(failed) || r == Err(NotUtf8))
      ensures closed == (old(closed) || r == Ok(Some(End)))
      ensures r == Ok(None) <==> old(closed)
      ensures r == Err(NotUtf8) && !old(failed) ==> Joined(chunks) <= server.file && Play([], chunks) == Played(delivered, false)
      ensures delivered == if r.Ok? && r.value.Some? && r.value.value.Line? then old(delivered) + [r.value.value.text] else old(delivered)
    {
      hide FileLines, Consistent, Traced, Play, Joined;
      while true
        invariant Valid() && delivered == old(delivered) && failed == old(failed) && closed == old(closed)
        decreases !finished, |server.file| - offset
      {
        if pending != [] {
          var line := pending[0];
          assert delivered + pending == (delivered + [line]) + pending[1..];
          pending := pending[1..];
          delivered := delivered + [line];
          return Ok(Some(Line(line)));
        }
        if finished {
          if !closed {
            server.Clunk();
            closed := true;
            return Ok(Some(End));
          }
          return Ok(None);
        }
        var _ :- Fill();
      }
    }

    /** A closed stream that never failed has delivered the file's lines, all of them and nothing else. */
    lemma {:induction false} Delivered()
      requires Valid() && closed && !failed
      ensures FileLines(server.file) == Some(delivered)
      ensures Cuts(server.file, chunks) && Play([], chunks) == Played(delivered, true)
    {
      hide FileLines, Play, Cuts;
      assert server.file[..offset] == server.file;
      assert [] + server.file[offset..] == [];
      FinishFragment(delivered + pending, []);
      assert delivered + pending == delivered;
    }

    /** Dropping the stream closes the fid if the end marker did not. */
    method Drop()
      requires Valid()
      modifies this, server
      ensures closed && server.clunks == 1
    {
      if !closed {
        server.Clunk();
        closed := true;
      }
    }
  }

  lemma {:induction false} ConsistentIs(file: seq<byte>, offset: nat, buffer: seq<byte>, done: seq<string>)
    requires offset <= |file|
    ensures Consistent(file, offset, buffer, done)
       <==> NEWLINE !in buffer && After(done, FileLines(buffer + file[offset..])) == FileLines(file)
  {
    hide FileLines;
  }

  lemma {:induction false} ConsistentAtEof(file: seq<byte>, offset: nat, buffer: seq<byte>, done: seq<string>, failed: bool)
    requires offset == |file| && buffer != []
    requires !failed ==> Consistent(file, offset, buffer, done)
    ensures !failed && DecodeLine(buffer).Some? ==> Consistent(file, offset, [], done + [DecodeLine(buffer).value])
    ensures !failed && DecodeLine(buffer) == None ==> FileLines(file) == None
  {
    hide FileLines, DecodeLine;
    if !failed {
      assert buffer + file[offset..] == buffer;
      FinishFragment(done, buffer);
      if DecodeLine(buffer).Some? {
        assert [] + file[offset..] == [];
        FinishFragment(done + [DecodeLine(buffer).value], []);
      }
    }
  }

  lemma {:induction false} ConsistentAtStart(file: seq<byte>)
    ensures Consistent(file, 0, [], [] + [])
  {
    hide FileLines;
    assert [] + file[0..] == file;
    AfterAfter([], [], FileLines(file));
  }

  function AsEvents(lines: seq<string>): seq<Event> {
    seq(|lines|, i requires 0 <= i < |lines| => Line(lines[i]))
  }

  lemma {:induction false} AsEventsPrefix(done: seq<string>, rest: Option<seq<string>>)
    requires After(done, rest).Some?
    ensures AsEvents(done) <= AsEvents(After(done, rest).value)
  {}

  /**
   Iterating a stream until it stops, however the server cuts the file. Without an error the events are the
   lines of the file and one end marker; a decoding error is seen only if some line is not UTF-8, and then
   no run is without error; after a transport error, what has been delivered of a file of good lines is a prefix.
   The events are those of the run over the pieces read, and the fid is closed exactly once in every case.
   */
  method TailAll(server: Server) returns (events: seq<Event>, error: Option<TailError>, ghost chunks: seq<seq<byte>>)
    requires server.clunks == 0 && server.msize > 0
    modifies server
    ensures server.clunks == 1
    ensures error == None ==> FileLines(server.file).Some? && events == AsEvents(FileLines(server.file).value) + [End]
    ensures error == None ==> Cuts(server.file, chunks) && Play([], chunks) == Played(FileLines(server.file).value, true)
    ensures error == Some(NotUtf8) ==> FileLines(server.file) == None
    ensures error == Some(NotUtf8) ==>
              Joined(chunks) <= server.file && !Play([], chunks).complete && events == AsEvents(Play([], chunks).lines)
    ensures error == Some(Transport) && FileLines(server.file).Some? ==> events <= AsEvents(FileLines(server.file).value)
  {
    hide FileLines, Consistent, Traced, Play, Joined, Cuts;
    var stream := new Stream(server);
    events, error := [], None;
    while !stream.closed
      invariant stream.server == server && fresh(stream) && stream.Valid() && !stream.failed
      invariant events == AsEvents(stream.delivered) + if stream.closed then [End] else []
      invariant error == None
      decreases !stream.closed, |server.file| - |stream.delivered|
    {
      var r := stream.NextEvent();
      chunks := stream.chunks;
      if r.Err? {
        error := Some(r.error);
        if !stream.failed {
          DeliveredPrefix(server.file, stream.offset, stream.buffer, stream.delivered, stream.pending);
        }
        stream.Drop();
        return;
      }
      assert AsEvents(stream.delivered) + [] == AsEvents(stream.delivered);
      events := events + [r.value.value];
    }
    stream.Delivered();
    chunks := stream.chunks;
    var last := stream.NextEvent();
    assert last == Ok(None);
    stream.Drop();
  }

  lemma {:induction false} DeliveredPrefix(file: seq<byte>, offset: nat, buffer: seq<byte>, delivered: seq<string>, pending: seq<string>)
    requires Consistent(file, offset, buffer, delivered + pending)
    ensures FileLines(file).Some? ==> AsEvents(delivered) <= AsEvents(FileLines(file).value)
  {
    hide FileLines;
    if FileLines(file).Some? {
      AsEventsPrefix(delivered + pending, FileLines(buffer + file[offset..]));
      assert AsEvents(delivered) <= AsEvents(delivered + pending);
    }
  }

  // ----- a run as a function of the reads -----

  /** Reading to the end: the lines delivered before the end marker or the first error, and whether it got to the end. */
  datatype Played = Played(lines: seq<string>, complete: bool)

  /** The run over the chunks still to be read, from what is buffered and an empty queue. */
  function Play(buffer: seq<byte>, chunks: seq<seq<byte>>): Played
    decreases |chunks|
  {
    if chunks == [] then PlayEnd(buffer)
    else
      var (ok, left, queue) := Extract(buffer + chunks[0], []);
      if !ok then Played([], false) else Lead(queue, Play(left, chunks[1..]))
  }

  /** The end of the file: what is buffered is the last line. */
  function PlayEnd(buffer: seq<byte>): Played {
    if buffer == [] then Played([], true)
    else if DecodeLine(buffer).Some? then Played([DecodeLine(buffer).value], true)
    else Played([], false)
  }

  function Lead(lines: seq<string>, p: Played): Played {
    Played(lines + p.lines, p.complete)
  }

  /** The reads so far, taken in one after the other: whether all decoded, the buffer, the lines. */
  function Ingest(chunks: seq<seq<byte>>): (bool, seq<byte>, seq<string>)
    decreases |chunks|
  {
    if chunks == [] then (true, [], [])
    else
      var (ok, buffer, lines) := Ingest(chunks[..|chunks| - 1]);
      if !ok then (false, buffer, lines) else Extract(buffer + chunks[|chunks| - 1], lines)
  }

  function Joined(chunks: seq<seq<byte>>): seq<byte>
    decreases |chunks|
  {
    if chunks == [] then [] else Joined(chunks[..|chunks| - 1]) + chunks[|chunks| - 1]
  }

  /** Non-empty pieces that make up the file. */
  predicate Cuts(file: seq<byte>, chunks: seq<seq<byte>>) {
    Joined(chunks) == file && forall i :: 0 <= i < |chunks| ==> chunks[i] != []
  }

  lemma {:induction false} LeadLead(a: seq<string>, b: seq<string>, p: Played)
    ensures Lead(a, Lead(b, p)) == Lead(a + b, p) && Lead([], p) == p
  {
    assert a + (b + p.lines) == a + b + p.lines && [] + p.lines == p.lines;
  }

  /** The queue only grows at its end. */
  lemma {:induction false} ExtractPending(buffer: seq<byte>, pending: seq<string>)
    ensures var (ok, left, queue) := Extract(buffer, []);
            Extract(buffer, pending) == (ok, left, pending + queue)
    decreases |buffer|
  {
    hide DecodeLine, Text.Find;
    assert pending + [] == pending;
    var i := Text.Find(buffer, NEWLINE);
    if i < |buffer| {
      var line := DecodeLine(buffer[..i]);
      if line.Some? {
        ExtractPending(buffer[i + 1..], pending + [line.value]);
        ExtractPending(buffer[i + 1..], [] + [line.value]);
        var queue := Extract(buffer[i + 1..], []).2;
        assert pending + [line.value] + queue == pending + ([] + [line.value] + queue);
      }
    }
  }

  lemma {:induction false} FindAhead(a: seq<byte>, b: seq<byte>)
    ensures Text.Find(a, NEWLINE) < |a| ==> Text.Find(a + b, NEWLINE) == Text.Find(a, NEWLINE)
    ensures Text.Find(a, NEWLINE) == |a| ==> NEWLINE !in a
  {
    var i := Text.Find(a, NEWLINE);
    if i < |a| {
      assert a + b == a[..i] + [NEWLINE] + (a[i + 1..] + b);
      Text.FindInConcat(a[..i], NEWLINE, a[i + 1..] + b);
    } else {
      assert a[..i] == a;
    }
  }

  /** Extracting from two pieces one after the other is extracting from both at once. */
  lemma {:induction false} ExtractConcat(a: seq<byte>, b: seq<byte>, pending: seq<string>)
    ensures var (ok, left, queue) := Extract(a, pending);
            Extract(a + b, pending) == if ok then Extract(left + b, queue) else (false, left + b, queue)
    decreases |a|
  {
    hide DecodeLine, Text.Find;
    FindAhead(a, b);
    var i := Text.Find(a, NEWLINE);
    if i < |a| {
      assert (a + b)[..i] == a[..i] && (a + b)[i + 1..] == a[i + 1..] + b;
      var line := DecodeLine(a[..i]);
      if line.Some? {
        ExtractConcat(a[i + 1..], b, pending + [line.value]);
      }
    }
  }

  lemma {:induction false} ExtractNothing(b: seq<byte>)
    requires NEWLINE !in b
    ensures Extract(b, []) == (true, b, [])
  {
    hide DecodeLine;
    assert forall i :: 0 <= i < |b| ==> b[i] != NEWLINE;
  }

  lemma {:induction false} ExtractLeaves(b: seq<byte>, pending: seq<string>)
    ensures Extract(b, pending).0 ==> NEWLINE !in Extract(b, pending).1
    decreases |b|
  {
    hide DecodeLine, Text.Find;
    FindAhead(b, []);
    var i := Text.Find(b, NEWLINE);
    if i < |b| && DecodeLine(b[..i]).Some? {
      ExtractLeaves(b[i + 1..], pending + [DecodeLine(b[..i]).value]);
    }
  }

  lemma {:induction false} JoinedCons(c: seq<byte>, chunks: seq<seq<byte>>)
    ensures Joined([c] + chunks) == c + Joined(chunks)
    decreases |chunks|
  {
    var all := [c] + chunks;
    if chunks == [] {
      assert all[..0] == [] && Joined(all) == Joined(all[..0]) + c;
    } else {
      var n := |chunks| - 1;
      assert all[..|all| - 1] == [c] + chunks[..n] && all[|all| - 1] == chunks[n];
      JoinedCons(c, chunks[..n]);
      assert c + Joined(chunks[..n]) + chunks[n] == c + (Joined(chunks[..n]) + chunks[n]);
    }
  }

  /** One chunk of a run against extracting from everything at once. */
  lemma {:induction false} PlayStep(buffer: seq<byte>, chunks: seq<seq<byte>>)
    requires chunks != []
    ensures var rest := chunks[1..];
            var (ok, left, queue) := Extract(buffer + chunks[0], []);
            var (okAll, leftAll, queueAll) := Extract(buffer + Joined(chunks), []);
            && (!ok ==> !okAll)
            && (ok ==> var (okRest, leftRest, queueRest) := Extract(left + Joined(rest), []);
                       okAll == okRest && leftAll == leftRest && queueAll == queue + queueRest)
  {
    var c, rest := chunks[0], chunks[1..];
    assert chunks == [c] + rest;
    JoinedCons(c, rest);
    hide Joined, Extract;
    assert buffer + (c + Joined(rest)) == buffer + c + Joined(rest);
    ExtractConcat(buffer + c, Joined(rest), []);
    var (ok, left, queue) := Extract(buffer + c, []);
    if ok {
      ExtractPending(left + Joined(rest), queue);
    }
  }

  /** When every line that ends in a newline decodes, a run does not show the cuts. */
  lemma {:induction false} PlayGood(buffer: seq<byte>, chunks: seq<seq<byte>>)
    requires NEWLINE !in buffer && Extract(buffer + Joined(chunks), []).0
    ensures var (ok, left, queue) := Extract(buffer + Joined(chunks), []);
            Play(buffer, chunks) == Lead(queue, PlayEnd(left))
    decreases |chunks|
  {
    hide Extract, PlayEnd, Lead;
    if chunks == [] {
      assert buffer + Joined(chunks) == buffer;
      ExtractNothing(buffer);
      LeadLead([], [], PlayEnd(buffer));
    } else {
      PlayStep(buffer, chunks);
      var (ok, left, queue) := Extract(buffer + chunks[0], []);
      ExtractLeaves(buffer + chunks[0], []);
      PlayGood(left, chunks[1..]);
      var (_, leftRest, queueRest) := Extract(left + Joined(chunks[1..]), []);
      LeadLead(queue, queueRest, PlayEnd(leftRest));
    }
  }

  /** With a bad line, a run fails, having delivered some of the good lines before it. */
  lemma {:induction false} PlayBad(buffer: seq<byte>, chunks: seq<seq<byte>>)
    requires NEWLINE !in buffer && !Extract(buffer + Joined(chunks), []).0
    ensures !Play(buffer, chunks).complete && Play(buffer, chunks).lines <= Extract(buffer + Joined(chunks), []).2
    decreases |chunks|
  {
    hide Extract, PlayEnd;
    if chunks == [] {
      assert buffer + Joined(chunks) == buffer;
      ExtractNothing(buffer);
    } else {
      PlayStep(buffer, chunks);
      var (ok, left, queue) := Extract(buffer + chunks[0], []);
      if ok {
        ExtractLeaves(buffer + chunks[0], []);
        PlayBad(left, chunks[1..]);
      }
    }
  }

  /** What the stream's variables say about the pieces read. */
  predicate Traced(file: seq<byte>, offset: nat, buffer: seq<byte>, done: seq<string>, chunks: seq<seq<byte>>, finished: bool) {
    && offset <= |file|
    && Cuts(file[..offset], chunks)
    && if finished then Play([], chunks) == Played(done, true) else Ingest(chunks) == (true, buffer, done)
  }

  /** A run goes on from what the reads so far have left. */
  lemma {:induction false} PlayAfter(chunks: seq<seq<byte>>, more: seq<seq<byte>>)
    requires Ingest(chunks).0
    ensures Play([], chunks + more) == Lead(Ingest(chunks).2, Play(Ingest(chunks).1, more))
    decreases |chunks|
  {
    hide Extract, Lead;
    if chunks == [] {
      assert chunks + more == more;
      LeadLead([], [], Play([], more));
    } else {
      var n := |chunks| - 1;
      var before, c := chunks[..n], chunks[n];
      var (ok, buffer, lines) := Ingest(before);
      PlayAfter(before, [c] + more);
      assert before + ([c] + more) == chunks + more;
      ExtractPending(buffer + c, lines);
      var (_, left, queue) := Extract(buffer + c, []);
      assert ([c] + more)[1..] == more;
      LeadLead(lines, queue, Play(left, more));
    }
  }

  lemma {:induction false} JoinedPush(chunks: seq<seq<byte>>, c: seq<byte>)
    ensures Joined(chunks + [c]) == Joined(chunks) + c
  {
    assert (chunks + [c])[..|chunks|] == chunks;
  }

  lemma {:induction false} TracedAtStart(file: seq<byte>)
    ensures Traced(file, 0, [], [] + [], [], false)
  {
    var none: seq<string> := [];
    assert file[..0] == [] && none + none == none;
  }

  lemma {:induction false} TracedRead(file: seq<byte>, offset: nat, buffer: seq<byte>, done: seq<string>, chunks: seq<seq<byte>>, chunk: seq<byte>)
    requires Traced(file, offset, buffer, done, chunks, false)
    requires chunk != [] && offset + |chunk| <= |file| && chunk == file[offset..offset + |chunk|]
    ensures var (ok, left, queue) := Extract(buffer + chunk, []);
            && Joined(chunks + [chunk]) <= file
            && (ok ==> Traced(file, offset + |chunk|, left, done + queue, chunks + [chunk], false))
            && (!ok ==> Play([], chunks + [chunk]) == Played(done, false))
  {
    hide Extract, Joined, Play, Lead;
    JoinedPush(chunks, chunk);
    assert file[..offset] + chunk == file[..offset + |chunk|];
    assert (chunks + [chunk])[..|chunks|] == chunks;
    ExtractPending(buffer + chunk, done);
    if !Extract(buffer + chunk, []).0 {
      PlayAfter(chunks, [chunk]);
      PlayFails(buffer, chunk, done);
    }
  }

  lemma {:induction false} PlayFails(buffer: seq<byte>, chunk: seq<byte>, done: seq<string>)
    requires !Extract(buffer + chunk, []).0
    ensures Lead(done, Play(buffer, [chunk])) == Played(done, false)
  {
    hide Extract;
    assert done + [] == done;
  }

  lemma {:induction false} TracedAtEof(file: seq<byte>, offset: nat, buffer: seq<byte>, done: seq<string>, chunks: seq<seq<byte>>)
    requires Traced(file, offset, buffer, done, chunks, false)
    ensures Joined(chunks) <= file
    ensures buffer == [] ==> Traced(file, offset, [], done, chunks, true)
    ensures buffer != [] && DecodeLine(buffer).Some? ==>
              Traced(file, offset, [], done + [DecodeLine(buffer).value], chunks, true)
    ensures buffer != [] && DecodeLine(buffer).None? ==> Play([], chunks) == Played(done, false)
  {
    hide DecodeLine, Joined, Ingest;
    PlayAfter(chunks, []);
    assert chunks + [] == chunks && done + [] == done;
    assert Play(buffer, []) == PlayEnd(buffer);
  }

  // ----- when the cuts show -----

  /** The lines of the file that end in a newline. */
  function Terminated(b: seq<byte>): seq<seq<byte>>
    decreases |b|
  {
    var i := Text.Find(b, NEWLINE);
    if i == |b| then [] else [b[..i]] + Terminated(b[i + 1..])
  }

  predicate AllDecode(lines: seq<seq<byte>>) {
    forall i :: 0 <= i < |lines| ==> DecodeLine(lines[i]).Some?
  }

  lemma {:induction false} AllDecodeCons(line: seq<byte>, lines: seq<seq<byte>>)
    ensures AllDecode([line] + lines) <==> DecodeLine(line).Some? && AllDecode(lines)
  {
    hide DecodeLine;
    var all := [line] + lines;
    assert all[0] == line && forall i :: 0 <= i < |lines| ==> all[i + 1] == lines[i];
  }

  /** Extraction succeeds when those all decode, and otherwise queues nothing only if the first does not. */
  lemma {:induction false} ExtractIs(b: seq<byte>, pending: seq<string>)
    ensures Extract(b, pending).0 <==> AllDecode(Terminated(b))
    ensures Terminated(b) != [] && DecodeLine(Terminated(b)[0]).None? ==> Extract(b, pending).2 == pending
    ensures |Extract(b, pending).2| >= |pending|
    ensures Terminated(b) != [] && DecodeLine(Terminated(b)[0]).Some? ==> |Extract(b, pending).2| > |pending|
    decreases |b|
  {
    hide DecodeLine, Text.Find, AllDecode;
    var i := Text.Find(b, NEWLINE);
    if i < |b| {
      AllDecodeCons(b[..i], Terminated(b[i + 1..]));
      var line := DecodeLine(b[..i]);
      if line.Some? {
        ExtractIs(b[i + 1..], pending + [line.value]);
      }
    } else {
      assert AllDecode([]) by {
        AllDecodeNone();
      }
    }
  }

  lemma {:induction false} AllDecodeNone()
    ensures AllDecode([])
  {}

  /** Every newline-terminated line is UTF-8, or the very first is not. */
  predicate CutsHidden(file: seq<byte>) {
    var lines := Terminated(file);
    AllDecode(lines) || DecodeLine(lines[0]).None?
  }

  ghost predicate SameForAllCuts(file: seq<byte>) {
    forall a, b :: Cuts(file, a) && Cuts(file, b) ==> Play([], a) == Play([], b)
  }

  lemma {:induction false} HiddenIsSame(file: seq<byte>, a: seq<seq<byte>>, b: seq<seq<byte>>)
    requires CutsHidden(file) && Cuts(file, a) && Cuts(file, b)
    ensures Play([], a) == Play([], b)
  {
    hide Extract, Play, DecodeLine, AllDecode, Terminated;
    ExtractIs(file, []);
    AllDecodeNone();
    assert [] + Joined(a) == file && [] + Joined(b) == file;
    if Extract(file, []).0 {
      PlayGood([], a);
      PlayGood([], b);
    } else {
      PlayBad([], a);
      PlayBad([], b);
      assert Play([], a).lines == [] && Play([], b).lines == [];
    }
  }

  /** A file in one piece against the same file cut after its first line. */
  lemma {:induction false} CutsShow(good: seq<byte>, rest: seq<byte>)
    requires NEWLINE !in good && DecodeLine(good).Some? && !AllDecode(Terminated(rest))
    ensures var file := good + [NEWLINE] + rest;
            && Cuts(file, [file]) && Play([], [file]) == Played([], false)
            && Cuts(file, [good + [NEWLINE], rest])
            && !Play([], [good + [NEWLINE], rest]).complete
            && DecodeLine(good).value in Play([], [good + [NEWLINE], rest]).lines
  {
    hide DecodeLine, AllDecode, Play, Terminated, Joined;
    var line, file := good + [NEWLINE], good + [NEWLINE] + rest;
    TerminatedStep(good, rest);
    AllDecodeCons(good, Terminated(rest));
    OnePiece(file);
    TwoPieces(line, rest);
    assert rest != [] by {
      TerminatedNone();
    }
    BadPiece(file);
    BadPiece(rest);
    GoodFirst(good, rest);
    assert DecodeLine(good).value in [DecodeLine(good).value] + Play([], [rest]).lines;
  }

  lemma {:induction false} TerminatedNone()
    ensures AllDecode(Terminated([]))
  {}

  lemma {:induction false} TerminatedStep(line: seq<byte>, rest: seq<byte>)
    requires NEWLINE !in line
    ensures Terminated(line + [NEWLINE] + rest) == [line] + Terminated(rest)
  {
    Text.FindInConcat(line, NEWLINE, rest);
    var b := line + [NEWLINE] + rest;
    assert b[..|line|] == line && b[|line| + 1..] == rest;
  }

  /** A bad line read in one piece with what is before it: nothing is delivered. */
  lemma {:induction false} BadPiece(piece: seq<byte>)
    requires !AllDecode(Terminated(piece))
    ensures Play([], [piece]) == Played([], false)
  {
    hide Extract, AllDecode, Terminated;
    ExtractIs(piece, []);
    assert [] + piece == piece;
  }

  lemma {:induction false} GoodFirst(good: seq<byte>, rest: seq<byte>)
    requires NEWLINE !in good && DecodeLine(good).Some?
    ensures Play([], [good + [NEWLINE], rest]) == Lead([DecodeLine(good).value], Play([], [rest]))
  {
    hide DecodeLine;
    var line := good + [NEWLINE];
    var halves: seq<seq<byte>> := [line, rest];
    ExtractStep(good, [], []);
    ExtractNothing([]);
    ExtractPending([], [] + [DecodeLine(good).value]);
    assert line + [] == line && [] + line == line && [] + [DecodeLine(good).value] + [] == [DecodeLine(good).value];
    hide Extract;
    assert halves[1..] == [rest];
  }

  lemma {:induction false} OnePiece(c: seq<byte>)
    ensures Joined([c]) == c
  {
    assert [c][..0] == [];
    assert Joined([c]) == Joined([]) + c;
  }

  lemma {:induction false} TwoPieces(a: seq<byte>, b: seq<byte>)
    ensures Joined([a, b]) == a + b
  {
    OnePiece(a);
    assert [a, b][..1] == [a];
  }

  /** The lines delivered before the end or the first error are the same for all cuts exactly when cuts are hidden. */
  lemma {:induction false} EventsIgnoreCutsIff(file: seq<byte>)
    ensures SameForAllCuts(file) <==> CutsHidden(file)
  {
    hide Play, DecodeLine, AllDecode, Cuts;
    if CutsHidden(file) {
      forall a, b | Cuts(file, a) && Cuts(file, b) ensures Play([], a) == Play([], b) {
        HiddenIsSame(file, a, b);
      }
    } else {
      AllDecodeNone();
      var i := Text.Find(file, NEWLINE);
      var good, rest := file[..i], file[i + 1..];
      assert file == good + [NEWLINE] + rest;
      AllDecodeCons(good, Terminated(rest));
      CutsShow(good, rest);
    }
  }

  /** One file, two cuts: a letter, then a byte that is no character, each on a line. */
  lemma {:induction false} TwoCutsOfOneFile()
    ensures var file := [97, NEWLINE, 0xFF, NEWLINE];
            && Cuts(file, [file]) && Play([], [file]) == Played([], false)
            && Cuts(file, [[97, NEWLINE], [0xFF, NEWLINE]])
            && "a" in Play([], [[97, NEWLINE], [0xFF, NEWLINE]]).lines
  {
    BadLinesExist();
    hide DecodeLine, Play, Cuts;
    var good, bad: seq<byte> := [97], [0xFF];
    var rest := bad + [NEWLINE] + [];
    RawBad(bad);
    CutsShow(good, rest);
    assert rest == [0xFF, NEWLINE] && good + [NEWLINE] == [97, NEWLINE];
    assert good + [NEWLINE] + rest == [97, NEWLINE, 0xFF, NEWLINE];
  }

  lemma {:induction false} RawBad(bad: seq<byte>)
    requires NEWLINE !in bad && DecodeLine(bad).None?
    ensures !AllDecode(Terminated(bad + [NEWLINE] + []))
  {
    hide DecodeLine, AllDecode, Terminated;
    TerminatedStep(bad, []);
    AllDecodeCons(bad, Terminated([]));
  }

  lemma {:induction false} BadLinesExist()
    ensures DecodeLine([97]) == Some("a") && DecodeLine([0xFF]) == None
  {
    assert "a"[0] as int == 97;
    assert Decode([97]) == Some("a") by {
      DecodeOfEncode("a");
      assert Encode("a") == [97] + [];
    }
    assert DecodeChar([0xFF]) == None;
  }
}
