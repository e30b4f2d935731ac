# Cohesix in Dafny

A verification model of the stateful and format-handling parts of Cohesix: the boot-image rewriter, the GPU
namespace wire format and its publication, log tailing, telemetry splitting, the session pool and its bench, the
kernel timer and fault registry, mount path resolution, shell scripts, node lifecycle, latency percentiles and
the offline bus spool. Each part is a Dafny module that follows one source component. Loops and objects of the
source are methods and classes, proved against specification functions; the theorems are about those functions.

`dafny verify dfyconfig.toml` checks everything.

## What is proved

- **Boot image** (`Cpio`, `Elfloader`). Building an archive and parsing it gives the entries back whatever
  follows them; parsing, building and parsing again only corrects the two length fields; replacing the root server
  in an image changes nothing but the archive window, and the window parses to the old entries with that one
  replacement. When the rewrite succeeds is told exactly.
- **GPU snapshots** (`Utf8`, `Base64`, `Json`, `JsonGrammar`, `TelemetrySchema`, `GpuWire`, `GpuRoundTrip`,
  `GpuAccept`). Printing and parsing a snapshot is the identity for exactly the printable snapshots, and whatever the
  parser accepts is printable. Which payloads it accepts, and as what, is told exactly from what their lines say, down
  to the grammar of the JSON in them.
- **Publication** (`Framing`, `Publish`). The chunked Base64 lines fit the limit, decode one by one, and, fed to
  the receiver in any state, make it complete with the very snapshot that was published; on any lines at all, a completion vouches for size,
  digest and contents, and what the receiver holds stays bounded.
- **Tailing** (`TailStream`). When every line is UTF-8, the events are the lines of the file however the server cuts
  it, then one end marker; the fid is closed exactly once in every run. With a bad line the cuts can show, and it is
  proved for exactly which files they do.
- **Telemetry** (`Telemetry`, `TelemetrySearch`). Where the binary search ends it finds the longest prefix that
  fits, and the records carry the text in order. The search does not end on every text. For a text that fits one
  record the exact condition is one on the text itself; every payload that ends in a multi-byte character loops for
  ever. For longer texts there are a necessary and a sufficient condition on the text, and an exact one on the
  search.
- **Truncation** (`Truncation`). Three differently written truncations are one function, the longest
  whole-character prefix; the breadcrumb loop finds the largest command limit that fits.
- **Session pool and bench** (`SessionPool`, `PoolBench`). Accounting invariants over every interleaving; the pool
  can be over capacity only by the leases out at its last reset, and not at all over runs that reset with none out;
  claimed index ranges tile the work.
- **Kernel timer** (`KernelTimer`). No drift over any run of polls and any number of counter wraps. That polls are
  less than 2^64 cycles apart is not enough for this; the time since the last boundary has to be, and polls a period
  closer than that are enough.
- **Faults** (`Faults`). The fatal list is the first eight distinct faulting badges; how often each thread is
  suspended; what the stray tracker remembers. With more than eight faulting badges a thread can be suspended again
  for every fault it sends.
- **Mounts** (`Mount`, `Inodes`). Resolved paths stay under the root and the allowlist, component by component, with
  the exact set of paths granted. A mount of `/` that allowlists `/` is meant to allow everything; it
  refuses `/x` and resolves, besides the root, only texts that begin with two slashes.
- **Scripts** (`Script`). Tokenising is an idempotent normaliser and validation accepts the same scripts.
- **Lifecycle** (`Lifecycle`). State, gate and root status are functions of the events so far.
- **Latency** (`Latency`) and **spool** (`Spool`). Percentiles are order statistics of the latest samples; the spool
  loses, repeats and reorders nothing.

`Outcome` and `Text` hold the result types and the string operations of the Rust standard library that the parsers
are built from.

## Model

| member | source | states |
|---|---|---|
| Cpio.HexLen | scripts/lib/strip_elfloader_modules.py:132-152 | a number printed in eight hexadecimal digits keeps to its field exactly when it is below 2^32 |
| Cpio.IntOfHex | scripts/lib/strip_elfloader_modules.py:103-103 | digits as the writer prints them are read as their value by the integer parser, blanks, signs, prefixes and underscores notwithstanding |
| Cpio.IntSpellings | scripts/lib/strip_elfloader_modules.py:103-103 | blanks around a number, a plus sign and a prefix do not change its value; a minus sign is taken before zero only |
| Cpio.UnhexLower | scripts/lib/strip_elfloader_modules.py:103-103 | lower-case digits read like upper-case ones |
| Cpio.UnderscoreBetween | scripts/lib/strip_elfloader_modules.py:103-103 | an underscore between digits does not count |
| Cpio.ReadEntryAt | scripts/lib/strip_elfloader_modules.py:96-129 | one turn of the parse loop at an absolute offset is the entry at the front of the remaining bytes, with the next offset or the same error |
| Cpio.ParseCpio | scripts/lib/strip_elfloader_modules.py:96-129 | the loop over offsets computes the recursive reading of the archive, errors and missing trailer included |
| Cpio.PadTo4 | scripts/lib/strip_elfloader_modules.py:147-151 | the padding loop extends to the next multiple of four with zeros |
| Cpio.BuildCpio | scripts/lib/strip_elfloader_modules.py:132-152 | one growing padded buffer is the concatenation of the entries' own aligned encodings |
| Cpio.ReadWritten | scripts/lib/strip_elfloader_modules.py:96-152 | one written entry reads back with its true lengths and its exact size, whatever bytes follow |
| Cpio.EntryLayout | scripts/lib/strip_elfloader_modules.py:132-152 | every byte of a written entry: magic number, thirteen fields of eight digits with the true lengths, name and NUL, zeros to a multiple of four, data, zeros to the next |
| Cpio.ParseOfBuild | scripts/lib/strip_elfloader_modules.py:96-152 | parsing a built archive followed by anything returns its entries with fields 6 and 11 corrected |
| Cpio.ParsedIsArchive | scripts/lib/strip_elfloader_modules.py:96-129 | parser output has exactly one trailer, last, and can be written again exactly when every name's length with its NUL fits eight digits; under 2^32 bytes of input it always does |
| Cpio.ParseBuildParse | scripts/lib/strip_elfloader_modules.py:96-152 | parse, build, parse only corrects the length fields |
| Elfloader.FirstNamed | scripts/lib/strip_elfloader_modules.py:155-164 | the first entry with a name, no earlier one having it |
| Elfloader.RewriteRootserver | scripts/lib/strip_elfloader_modules.py:155-164 | the in-place search replaces the data of the first `rootserver` entry only, and nothing when there is none |
| Elfloader.RebuildArchive | scripts/lib/strip_elfloader_modules.py:187-192 | parse, replace, build, with the size difference or the error |
| Elfloader.Overwrite | scripts/lib/strip_elfloader_modules.py:202-204 | a slice assignment changes exactly the slice |
| Elfloader.SpliceInPlace | scripts/lib/strip_elfloader_modules.py:201-204 | archive bytes and zero fill replace the window and nothing else |
| Elfloader.PrepareElfloader | scripts/lib/strip_elfloader_modules.py:167-210 | the whole rewrite on the byte array; on every failure the array is untouched |
| Elfloader.RewritePreservesMeaning | scripts/lib/strip_elfloader_modules.py:155-205 | length and outside bytes are kept, and the window parses to the old entries in order: every name, field and datum as it was, but for the first root server's data, now the payload, and the two length fields, now true |
| Elfloader.PrepareRefuses | scripts/lib/strip_elfloader_modules.py:184-191 | the rewrite fails exactly for bounds outside the image, for an archive that does not parse with its error, and for one without a root server |
| Elfloader.PrepareSucceedsIff | scripts/lib/strip_elfloader_modules.py:194-210 | otherwise it succeeds exactly when the rebuilt archive is no longer than the window, an exact fit included, reporting both lengths and the change in size; a longer one is refused with both lengths |
| Elfloader.SmallerPayloadSucceeds | scripts/lib/strip_elfloader_modules.py:155-210 | on a window that holds a built archive, a root server no longer than the old one always goes in |
| Utf8.DecodeOfEncode | apps/gpu-bridge-host/src/lib.rs:879-885 | decoding UTF-8 undoes encoding on every string |
| Utf8.Decode | apps/gpu-bridge-host/src/lib.rs:879-885 | whatever decodes is the encoding of the result: overlong forms and surrogates are refused |
| Base64.Decode | apps/gpu-bridge-host/src/lib.rs:879-885 | whatever decodes is the encoding of the result: no loose padding, no stray bits |
| Base64.DecodeOfEncode | apps/gpu-bridge-host/src/lib.rs:879-885 | decoding Base64 undoes encoding on every payload |
| Base64.EncodeConcat | apps/gpu-bridge-host/src/lib.rs:715-737 | encoding splits at every multiple of three bytes |
| Base64.CutText | apps/gpu-bridge-host/src/lib.rs:715-737 | cutting the text at a multiple of four cuts the bytes at the matching multiple of three |
| Json.EscapeJsonString | apps/gpu-bridge-host/src/lib.rs:912-928 | the escaping loop computes the character-wise escape |
| Json.ReadEscaped | apps/gpu-bridge-host/src/lib.rs:912-928 | reading an escaped string gives the string back and stops at its closing quote, for every string |
| JsonGrammar.EscapeIsText | apps/gpu-bridge-host/src/lib.rs:912-928 | an escaped string is a text of the string in the grammar of RFC 8259 |
| JsonGrammar.EscapeCharIs | apps/gpu-bridge-host/src/lib.rs:912-928 | which characters are written as they are, which as two and which as six characters |
| Json.ReadObject | apps/gpu-bridge-host/src/lib.rs:170-181 | a printed object reads back as its members in order |
| JsonGrammar.ReadDocumentIff | apps/gpu-bridge-host/src/lib.rs:895-897 | a document is read as a value exactly when it is a text of that value in the grammar of RFC 8259: any white space, any escapes, any nesting |
| TelemetrySchema.SchemaRoundTrip | apps/gpu-bridge-host/src/lib.rs:170-196 | the printed descriptor parses back to the schema, for every schema with a version and a positive limit |
| TelemetrySchema.AcceptedReparses | apps/gpu-bridge-host/src/lib.rs:895-910 | whatever text is accepted, its schema prints to a descriptor that parses back to it |
| TelemetrySchema.ParseSchemaIff | apps/gpu-bridge-host/src/lib.rs:886-910 | a text is accepted exactly when it is JSON with the four members once each, among any others, or their list, with a version and a positive limit; which error each other text gets |
| GpuWire.NamespaceToWire | apps/gpu-bridge-host/src/lib.rs:680-707 | the growing buffer is the line-by-line wire form |
| GpuWire.CollectFields | apps/gpu-bridge-host/src/lib.rs:781-793 | the field loop: allowed keys split at the first `=`, later ones overwriting, anything else an error |
| GpuWire.ParseKeyed | apps/gpu-bridge-host/src/lib.rs:762-857 | the keyword dispatch with all its errors |
| GpuWire.ParseWireSnapshot | apps/gpu-bridge-host/src/lib.rs:740-877 | the parse loop over lines computes the recursive parse with its closing checks |
| GpuRoundTrip.CollectPairs | apps/gpu-bridge-host/src/lib.rs:781-793 | every printed `key=value` pair is recovered, with Base64 padding and `=` inside values |
| GpuRoundTrip.RoundTrip | apps/gpu-bridge-host/src/lib.rs:680-877 | parsing the wire form of a printable snapshot returns that snapshot |
| GpuRoundTrip.AcceptedIsPrintable | apps/gpu-bridge-host/src/lib.rs:740-877 | whatever the parser accepts, from any bytes, prints and parses back to itself |
| GpuRoundTrip.RoundTripIff | apps/gpu-bridge-host/src/lib.rs:680-877 | the round trip holds for exactly the printable snapshots |
| GpuAccept.ParseIff | apps/gpu-bridge-host/src/lib.rs:740-877 | the parser accepts exactly UTF-8 text whose lines, up to an end marker with only blanks after it, each say an item, fields in any order and the last of a repeated one counting, and whose items yield a snapshot: a schema line, the nodes and models in order, the last active model, listed if any are, the last telemetry schema; and it returns that snapshot |
| GpuAccept.CollectIs | apps/gpu-bridge-host/src/lib.rs:781-793 | the field loop accepts exactly words that are an allowed key, `=` and a value, and holds the last value of each key |
| GpuAccept.CollectErr | apps/gpu-bridge-host/src/lib.rs:781-793 | it fails for the first other word: for its missing `=`, or for its key |
| GpuAccept.FieldErrors | apps/gpu-bridge-host/src/lib.rs:879-885 | a payload field is refused exactly as missing, as not Base64, or as Base64 of no UTF-8 text |
| GpuAccept.LineErrors | apps/gpu-bridge-host/src/lib.rs:762-857 | a line is refused for its keyword, its schema value, extra tokens or its missing id |
| GpuAccept.FirstBadLine | apps/gpu-bridge-host/src/lib.rs:750-857 | a payload is refused with the error of its first line that does not read |
| GpuAccept.ClosingErrors | apps/gpu-bridge-host/src/lib.rs:859-877 | lines that read but yield no snapshot are refused for the first of schema line, active model, listed model and telemetry schema that is lacking |
| GpuAccept.NoEndError | apps/gpu-bridge-host/src/lib.rs:859-864 | without an end marker the refusal is for that, or for a missing schema line |
| GpuAccept.DataAfterEndError | apps/gpu-bridge-host/src/lib.rs:750-757 | anything but blanks after the marker is refused |
| Framing.ChunkLen | apps/gpu-bridge-host/src/lib.rs:715-737 | the chunk length is the largest multiple of four that fits beside the prefix, and is usable exactly from a limit of 8 |
| Framing.FramesRefineEncoding | apps/gpu-bridge-host/src/lib.rs:715-737 | every frame is within the limit and decodes on its own, and the decodes joined are the payload |
| Framing.UploadSegments | apps/cas-tool/src/main.rs:178-200 | the uploader writes those frames for every payload; its length check never fires |
| Publish.BuildPublishLines | apps/gpu-bridge-host/src/lib.rs:715-737 | begin line, frames and end line for the snapshot's bytes, failing exactly for limits below 8 |
| Publish.HexDecodeOfEncode | apps/nine-door/src/host/core.rs:4619-4631 | the printed digest reads back |
| Publish.BeginIsRead | apps/nine-door/src/host/core.rs:4572-4609 | the begin line announces exactly the size and digest it was printed from |
| Publish.Receiver.constructor | apps/nine-door/src/host/core.rs:2097-2120 | a receiver starts with nothing pending |
| Publish.Receiver.HandleLine | apps/nine-door/src/host/core.rs:2121-2200 | one line's effect on the pending transfer and the reported update or error |
| Publish.FeedChunks | apps/nine-door/src/host/core.rs:2121-2200 | data lines in a row leave their joined text pending and report nothing |
| Publish.PublishDelivers | apps/nine-door/src/host/core.rs:2121-2200 | from any receiver state, the published lines of a snapshot end in one completion with that snapshot and nothing pending |
| Publish.FeedKeepsBounds | apps/nine-door/src/host/core.rs:2121-2200 | whatever lines arrive, the announced size stays within the receiver's maximum and the collected text within what that size encodes to |
| Publish.PendingIsCollected | apps/nine-door/src/host/core.rs:2121-2200 | whatever lines a receiver is fed, what is pending was announced by the last begin line taken and holds the data lines taken since, joined |
| Publish.CompletionOverRun | apps/nine-door/src/host/core.rs:2121-2200 | a completion's snapshot is the parse of bytes whose Base64 is that joined text and whose size and digest were announced |
| TailStream.Server.Read | apps/cohsh/src/client.rs:209-242 | what a server may answer: any non-empty piece at the offset, nothing at the end, or an error |
| TailStream.LinesOfText | apps/cohsh/src/client.rs:296-302 | a text, then a newline or a carriage return and a newline, is a line of the file with exactly that one carriage return dropped; likewise a last text without a newline |
| Text.CrLfStep | apps/gpu-bridge-host/src/lib.rs:750-750 | a line ends in a newline with at most one carriage return before it |
| TailStream.Stream.constructor | apps/cohsh/src/client.rs:155-166 | a new stream is at the start of the file with nothing delivered |
| TailStream.Stream.ExtractLines | apps/cohsh/src/client.rs:244-252 | complete lines move from the buffer to the queue without changing what the file still has to deliver |
| TailStream.Stream.Fill | apps/cohsh/src/client.rs:209-242 | one read keeps that account, or notices the end of the file |
| TailStream.Stream.NextEvent | apps/cohsh/src/client.rs:209-242 | one event: the next line, the end marker once with the fid closed, then nothing for ever |
| TailStream.Stream.Delivered | apps/cohsh/src/client.rs:209-252 | a closed stream without error has delivered exactly the lines of the file |
| TailStream.Stream.Drop | apps/cohsh/src/client.rs:267-274 | after dropping, the fid has been closed exactly once |
| TailStream.TailAll | apps/cohsh/src/client.rs:207-302 | however the server cuts the file: the lines and one end marker when there is no error; a decoding error only for files with a line that is not UTF-8, and no error-free run of those; a prefix of the lines of a good file before a transport error; the events are those of the functional run over the pieces read; one close |
| TailStream.PlayGood | apps/cohsh/src/client.rs:209-252 | when every newline-terminated line decodes, the run over the pieces depends on their concatenation only |
| TailStream.PlayBad | apps/cohsh/src/client.rs:209-252 | otherwise every run fails, having delivered a prefix of the good lines before the first bad one |
| TailStream.EventsIgnoreCutsIff | apps/cohsh/src/client.rs:209-252 | the lines delivered before the end or the first error are the same for all cuts of a file exactly when every newline-terminated line is UTF-8 or the first one is not |
| TailStream.TwoCutsOfOneFile | apps/cohsh/src/client.rs:244-252 | one file of a good and a bad line: read whole, nothing is delivered before the error; cut between the lines, the good one is |
| Telemetry.RecordReadsBack | apps/cohsh/src/lib.rs:3976-3986 | a record read as JSON gives its number and payload back |
| Telemetry.FitsDownward | apps/cohsh/src/lib.rs:3957-3974 | a shorter prefix needs no more room |
| Telemetry.LargestFitIs | apps/cohsh/src/lib.rs:3957-3974 | a prefix that fits and cannot grow is the longest one |
| Telemetry.SplitCarriesAll | apps/cohsh/src/lib.rs:3927-3955 | the payloads of the records join to the input, none empty, none over 4096 bytes, numbered consecutively |
| Telemetry.SplitSucceeds | apps/cohsh/src/lib.rs:3927-3955 | room for one escaped character is enough for every split to succeed |
| Telemetry.ShortTextFits | apps/cohsh/src/lib.rs:3976-3986 | a hundred characters with a content type of at most a hundred fit the first record |
| TelemetrySearch.TurnEffect | apps/cohsh/src/lib.rs:3960-3972 | a turn keeps the bounds sound and narrows them, unless the next character is too wide for them, and then it changes nothing |
| TelemetrySearch.EndsIffNeverStuck | apps/cohsh/src/lib.rs:3957-3974 | on any text, the search ends exactly when its first turns, as many as there are bytes, never meet such bounds; for texts that do not fit this replay is the exact condition |
| TelemetrySearch.FittingEndsIffRoomy | apps/cohsh/src/lib.rs:3957-3974 | on a text that fits one record, as the last search of every split is, the search ends exactly when for every character the bytes from it to the end, and one more, are at least twice its width |
| TelemetrySearch.EndIsRight | apps/cohsh/src/lib.rs:3957-3974 | on any text, a search that ends returns the longest prefix that fits |
| TelemetrySearch.EndsNeedsNarrow | apps/cohsh/src/lib.rs:3960-3964 | a search ends only if the character at the cut is a single byte |
| TelemetrySearch.RoomyEnds | apps/cohsh/src/lib.rs:3957-3974 | it ends whenever wide characters have room before a single-byte cut |
| TelemetrySearch.AsciiEnds | apps/cohsh/src/lib.rs:3957-3974 | it ends on single-byte text |
| TelemetrySearch.WideEndingNeverEnds | apps/cohsh/src/lib.rs:3960-3964 | every text that fits one record and ends in a multi-byte character makes it run for ever |
| TelemetrySearch.WideEndingPayload | apps/cohsh/src/lib.rs:3927-3955 | a payload that would split and ends in a multi-byte character makes the record loop run for ever |
| TelemetrySearch.AccentedLetterNeverEnds | apps/cohsh/src/lib.rs:3957-3974 | a concrete payload: one two-byte letter pushed as text/plain never returns |
| TelemetrySearch.EuroLetterNeverEnds | apps/cohsh/src/lib.rs:3957-3974 | a concrete text with a single-byte ending that still never ends: a three-byte character and one letter |
| TelemetrySearch.SelectPayloadLen | apps/cohsh/src/lib.rs:3957-3974 | the two nested loops, on every text their search ends on, return the longest prefix that fits |
| TelemetrySearch.BuildRecords | apps/cohsh/src/lib.rs:3927-3955 | the record loop refines the reference splitting |
| Utf8.RoundDown | apps/cohsh/src/lib.rs:3962-3964 | the inner loop rounds down to the nearest character boundary |
| Utf8.FloorIsPrefix | apps/cohsh/src/lib.rs:3962-3964 | rounding down keeps exactly the whole characters before the offset |
| Truncation.TruncatedIsLongest | apps/coh/src/run.rs:255-270 | the reference is the one longest whole-character prefix within the limit |
| Truncation.TruncateToBytes | apps/coh/src/run.rs:255-270 | the copying loop is that function |
| Truncation.TruncateText | apps/cohsh/src/lib.rs:3388-3397 | rounding back from the limit is that function |
| Truncation.TruncateToBoundary | apps/host-sidecar-bridge/src/lib.rs:386-399 | tracking the last boundary is that function |
| Truncation.EnsureLineTerminated | apps/host-sidecar-bridge/src/lib.rs:379-384 | the trimmed line cut to leave room for its newline, within the cap |
| Truncation.FitsDownward | apps/coh/src/run.rs:218-253 | a smaller command limit never makes the breadcrumb longer |
| Truncation.BuildBreadcrumbLine | apps/coh/src/run.rs:218-253 | the line for the largest command limit that fits, failing exactly when the empty command does not fit |
| Truncation.EntryReadsBack | apps/coh/src/run.rs:232-241 | a breadcrumb read as JSON gives schema, event, kept command, status and exit code back |
| SessionPool.StepInv | apps/cohsh/src/session_pool.rs:79-169 | every operation keeps every session in exactly one place, quit at most once, totals within capacity |
| SessionPool.ReachesInv | apps/cohsh/src/session_pool.rs:79-221 | the invariant holds after any sequence of operations and factory failures |
| SessionPool.Accounting | apps/cohsh/src/session_pool.rs:116-149 | idle plus leased is the total plus the sessions carried over the last reset, and the total is within capacity |
| SessionPool.ExhaustedIff | apps/cohsh/src/session_pool.rs:116-149 | an open pool says exhausted exactly when the leases are its capacity plus the carried sessions |
| SessionPool.ResetCarries | apps/cohsh/src/session_pool.rs:158-169 | a reset carries exactly the leases that are out |
| SessionPool.CarriedAreLeasedAtReset | apps/cohsh/src/session_pool.rs:79-221 | over any run of a new pool, the carried sessions are the leases out at its last attach or shutdown that have not quit since |
| SessionPool.QuietRunBounded | apps/cohsh/src/session_pool.rs:79-169 | over any run of a new pool with no lease out at an attach or shutdown, at most capacity sessions are out, and an open pool says exhausted exactly when all are |
| SessionPool.CheckoutIsCurrentIff | apps/cohsh/src/session_pool.rs:116-149 | over any run, a session handed out is free, and was spawned since the last reset exactly when it was not on lease at it |
| SessionPool.AttachMakes | apps/cohsh/src/session_pool.rs:79-101 | what an attach leaves, whatever the factory does: the idle quit, then capacity less one control sessions and capacity telemetry sessions, numbered in order |
| SessionPool.OldestFirst | apps/cohsh/src/session_pool.rs:127-132 | idle sessions are handed out oldest first |
| SessionPool.ReturnedIsLast | apps/cohsh/src/session_pool.rs:208-221 | a returned session waits behind those idle when it came back |
| SessionPool.CheckoutAnswers | apps/cohsh/src/session_pool.rs:116-149 | which refusal a checkout gives, and that it then changes nothing |
| SessionPool.NewPool | apps/cohsh/src/session_pool.rs:65-76 | capacities of at least one, and refusals before the attach and after a shutdown |
| SessionPool.IdleBounded | apps/cohsh/src/session_pool.rs:208-221 | without carried sessions the idle queue stays within capacity |
| SessionPool.OverCapacityAcrossReset | apps/cohsh/src/session_pool.rs:79-169 | attach, lease, attach, lease puts two sessions out of a pool of one |
| SessionPool.Pool.constructor | apps/cohsh/src/session_pool.rs:65-76 | an empty pool with capacities of at least one |
| SessionPool.Pool.SpawnSession | apps/cohsh/src/session_pool.rs:151-156 | the factory makes the next session or none |
| SessionPool.Pool.ResetLocked | apps/cohsh/src/session_pool.rs:158-169 | idle sessions quit in order and totals start again; leases are untouched |
| SessionPool.Pool.WarmUp | apps/cohsh/src/session_pool.rs:79-101 | a warming loop adds sessions until the first failure |
| SessionPool.Pool.Attach | apps/cohsh/src/session_pool.rs:79-101 | reset, then one control session short of capacity and all telemetry sessions |
| SessionPool.Pool.Checkout | apps/cohsh/src/session_pool.rs:116-149 | the oldest idle session, or a new one below capacity, or the matching error |
| SessionPool.Pool.Return | apps/cohsh/src/session_pool.rs:208-221 | a dropped lease goes back to the idle queue, or quits when the pool is closed |
| SessionPool.Pool.Shutdown | apps/cohsh/src/session_pool.rs:104-108 | closed and reset |
| PoolBench.StepInv | apps/cohsh/src/lib.rs:2900-2954 | every atomic step of every worker keeps the claims laid end to end and the tokens and indices accounted for |
| PoolBench.ClaimsDisjoint | apps/cohsh/src/lib.rs:2900-2917 | in any interleaving no index is claimed twice and none past the work |
| PoolBench.ClaimsComplete | apps/cohsh/src/lib.rs:2900-2917 | once a worker has seen a start past the work, every index is claimed |
| PoolBench.TokensBounded | apps/cohsh/src/lib.rs:2918-2938 | tokens spent and tokens left always add up to those configured |
| PoolBench.WorkConserved | apps/cohsh/src/lib.rs:2900-2954 | when no worker holds a claim, each index handed out was written or lost with a failed worker or write, and that is all the work once one worker is done |
| PoolBench.AllWritten | apps/cohsh/src/lib.rs:2900-2954 | a run in which nothing fails loses nothing and, once one worker is done and no claim is out, has written all the work; one in which everything fails writes nothing |
| KernelTimer.PeriodCyclesIs | apps/root-task/src/kernel.rs:3447-3455 | the period is the milliseconds' worth of cycles rounded down where that fits 64 bits, and 1 where it would be less than one |
| KernelTimer.Kernel.constructor | apps/root-task/src/kernel.rs:3370-3378 | an enabled timer with no ticks at the baseline |
| KernelTimer.Kernel.Bypass | apps/root-task/src/kernel.rs:3380-3394 | the inert timer |
| KernelTimer.Kernel.PollOnce | apps/root-task/src/kernel.rs:3409-3435 | one poll: the new cells and the event |
| KernelTimer.PollExact | apps/root-task/src/kernel.rs:3409-3435 | a poll less than 2^64 cycles after the last boundary brings the timer exactly up to date, with the residual below a period |
| KernelTimer.PollRightIff | apps/root-task/src/kernel.rs:3409-3435 | while the count fits 64 bits, a poll of a timer that was up to date counts right exactly when it comes less than 2^64 cycles after the last boundary |
| KernelTimer.NeverDrifts | apps/root-task/src/kernel.rs:3409-3435 | over any such run, ticks are the whole periods since the baseline and the caller's clock has advanced a period for each, both saturating |
| KernelTimer.SpacedIsPolled | apps/root-task/src/kernel.rs:3409-3435 | polls at most 2^64 cycles less one period apart are such a run |
| KernelTimer.NewTimerNeverDrifts | apps/root-task/src/kernel.rs:3370-3435 | a new timer polled with that spacing never drifts |
| KernelTimer.GapAloneIsNotEnough | apps/root-task/src/kernel.rs:3418-3425 | two polls less than 2^64 cycles apart, the second 2^64 cycles after the boundary, miss at least one period, for every timer |
| Faults.StrayTracker.constructor | apps/root-task/src/kernel.rs:3651-3657 | nothing seen |
| Faults.StrayTracker.FirstObservation | apps/root-task/src/kernel.rs:3659-3673 | "first" exactly for a signature not held, which then replaces the oldest when full |
| Faults.FaultRegistry.constructor | apps/root-task/src/kernel.rs:3694-3704 | an empty registry |
| Faults.FaultRegistry.RegisterSource | apps/root-task/src/kernel.rs:3714-3741 | the source with the badge is replaced, else appended while there is room |
| Faults.FaultRegistry.LookupSource | apps/root-task/src/kernel.rs:3743-3749 | the first source with the badge |
| Faults.FaultRegistry.MarkFatal | apps/root-task/src/kernel.rs:3751-3756 | a new badge is added while there is room |
| Faults.FaultRegistry.MarkUnknown | apps/root-task/src/kernel.rs:3758-3764 | unknown and fatal |
| Faults.FaultRegistry.MarkSuppressed | apps/root-task/src/kernel.rs:3782-3789 | "first" exactly for a badge not held |
| Faults.FaultRegistry.RecordOccurrence | apps/root-task/src/kernel.rs:3791-3800 | the badge's count goes up, saturating, or starts at one while there is room |
| Faults.FaultRegistry.HandleFatalFault | apps/root-task/src/kernel.rs:4205-4254 | a known sender is suspended, an unknown one noted; fatal either way; a fatal one suppressed |
| Faults.FaultRegistry.PollOne | apps/root-task/src/kernel.rs:4516-4555 | the branches of the loop body: stray, bad layout, known fatal, fault |
| Faults.FaultRegistry.PollFaultEndpoint | apps/root-task/src/kernel.rs:4503-4556 | the loop handles the waiting messages up to the first absent one |
| Faults.PollExtendsRun | apps/root-task/src/kernel.rs:4503-4556 | handling a batch is the run extended by receiving its messages |
| Faults.BatchIs | apps/root-task/src/kernel.rs:4508-4515 | a poll takes the messages before the first empty one, and that one |
| Faults.LayoutValidIff | apps/root-task/src/kernel.rs:3949-3970 | which labels and lengths make a valid fault |
| Faults.FatalIsFirstDistinct | apps/root-task/src/kernel.rs:3751-3764 | the fatal list is the first eight distinct badges that sent a valid fault, in order |
| Faults.FatalIffFaulted | apps/root-task/src/kernel.rs:3766-3768 | fatal means has faulted, for every badge, exactly while at most eight distinct badges have |
| Faults.NotedAreFirstDistinct | apps/root-task/src/kernel.rs:3758-3789 | the suppressed list is the first eight distinct badges that faulted again once fatal, the unknown list the first eight that faulted unregistered |
| Faults.TalliesAreFatal | apps/root-task/src/kernel.rs:3791-3800 | the tallies hold the fatal badges, each counted once |
| Faults.CountIsAlwaysOne | apps/root-task/src/kernel.rs:4549-4551 | the occurrence count handed to the report is always 1 |
| Faults.CountAllIs | apps/root-task/src/kernel.rs:3791-3800 | counting alone gives each of the first eight distinct badges its number of occurrences, up to the largest 32-bit number |
| Faults.SuspensionCount | apps/root-task/src/kernel.rs:4205-4254 | over any run, how often each badge's thread is suspended |
| Faults.SuspensionsAre | apps/root-task/src/kernel.rs:4180-4254 | over any run, the threads suspended are, in order, told from the events alone: for each valid fault of a badge not among the first eight to fault and among the first eight to register, the thread last registered for it |
| Faults.LookupIsLast | apps/root-task/src/kernel.rs:3714-3749 | the registry knows a badge exactly if it was among the first eight to register, by the thread last registered |
| Faults.SuspendedAgainIff | apps/root-task/src/kernel.rs:4205-4254 | more than once exactly when the badge is not fatal and faulted twice while registered |
| Faults.SuspendedAtMostOnce | apps/root-task/src/kernel.rs:4205-4254 | at most eight distinct faulting badges: once if registered at its first fault, else never |
| Faults.FullListSuspendsAgain | apps/root-task/src/kernel.rs:4205-4254 | with a full list, every fault of a registered thread outside it suspends it again |
| Faults.NinthBadgeSuspendedTwice | apps/root-task/src/kernel.rs:4205-4254 | a concrete run: badge 9 registers, eight unregistered badges fault, and two faults of badge 9 suspend it twice |
| Faults.StraysAreLastAccepted | apps/root-task/src/kernel.rs:3646-3678 | the tracker holds the last 32 signatures answered "first" and knows whether there were more |
| Faults.FirstIsNeverSeenIff | apps/root-task/src/kernel.rs:3659-3673 | "first" means never seen before exactly while at most 32 distinct signatures have been seen |
| Mount.ParsePath | apps/cohsh/src/client.rs:180-204 | the client's loop computes the components or the first error |
| Mount.ValidatePath | apps/coh/src/mount.rs:170-193 | the counting loop accepts and refuses, with the same errors, what the component parsers do at depth 8 |
| Mount.ParseOk | apps/cohsh/src/lib.rs:3864-3887 | a path parses exactly when it is absolute, all components fine and at most the limit; and into its components |
| Mount.ParseErrors | apps/cohsh/src/lib.rs:3864-3887 | a path is refused for its first component that is bad, by its kind, or one too many |
| Mount.BuildValidator | apps/coh/src/mount.rs:81-97 | the trimming loop and the allow-all flag |
| Mount.RootIs | apps/coh/src/mount.rs:81-97 | the root mounted is the policy's without blanks around and slashes after it, and `/` when nothing is left |
| Mount.JoinedComponents | apps/coh/src/mount.rs:100-117 | root and relative path join component by component |
| Mount.ResolveSound | apps/coh/src/mount.rs:100-131 | whatever resolves is root followed by the relative path, at most eight fine components, equal to the root or under an allowlisted entry |
| Mount.ComponentsOfPath | apps/coh/src/mount.rs:170-193 | names written as a path read back as those names |
| Mount.UnderNormalIff | apps/coh/src/mount.rs:120-131 | on normal paths the text prefix test is the component prefix test, except below `/` |
| Mount.ResolveIff | apps/coh/src/mount.rs:81-131 | for a mount in normal form, exactly which path texts resolve, repeated slashes and all |
| Mount.NormalResolveIff | apps/coh/src/mount.rs:81-131 | for paths in normal form that is component by component |
| Mount.TopMountIff | apps/coh/src/mount.rs:81-131 | a mount of `/` that lists `/` resolves, of all path texts, only the root and those that begin with two slashes |
| Mount.TopPolicyRefuses | apps/coh/src/mount.rs:81-131 | a concrete policy: `/x` is refused and `//x` resolves |
| Inodes.InodeTable.constructor | apps/coh/src/mount.rs:1006-1012 | an empty table whose next number is 2 |
| Inodes.InodeTable.Add | apps/coh/src/mount.rs:1014-1036 | a known path keeps its number, a new one gets the next, `/` gets 1 |
| Inodes.InsertConsistentIff | apps/coh/src/mount.rs:1014-1036 | the two maps stay inverse exactly when no fresh number is asked for after the largest is taken |
| Inodes.RunConsistent | apps/coh/src/mount.rs:1014-1036 | over any run of fewer than 2^64 - 1 requests, paths and numbers correspond one to one |
| Inodes.NumbersAreStable | apps/coh/src/mount.rs:1014-1036 | a path keeps its number whatever is requested later |
| Inodes.NumbersAre | apps/coh/src/mount.rs:1014-1036 | the root has number 1 and the other paths, in the order first asked for, 2, 3 and so on |
| Inodes.LookupIsLastRequest | apps/coh/src/mount.rs:1014-1040 | over any such run, looking up a path's number gives the path with the kind last requested for it, and only requested paths have one |
| Script.ParseScriptLines | apps/cohsh/src/lib.rs:331-358 | numbered contents of the lines that have any, failing at line content 257 |
| Script.ScriptLinesAre | apps/cohsh/src/lib.rs:331-358 | a script's lines are those with content, numbered, at most 256; the next one is the error |
| Script.ContentIs | apps/cohsh/src/lib.rs:335-341 | what is kept of a line is the text between the blanks before any comment |
| Script.ValidateScript | apps/cohsh/src/lib.rs:361-390 | accepts exactly the scripts that tokenise, with the same error otherwise |
| Script.TokenizeScript | apps/cohsh/src/lib.rs:393-432 | the loop computes the reference tokens or the first error |
| Script.TokensAre | apps/cohsh/src/lib.rs:393-432 | each line's token depends only on the line and on whether a command came before, and the error is that of the first line without one |
| Script.WaitIs | apps/cohsh/src/lib.rs:293-329 | a wait takes exactly one number of at most 2000, and which error each other case gives |
| Text.ParseUnsignedIff | apps/cohsh/src/lib.rs:293-329 | a text reads as an unsigned number exactly when it is that number printed, with any zeros and at most one plus sign before it, and within the maximum |
| Script.SelectorErrors | apps/cohsh/src/lib.rs:242-291 | which expectation gives which error |
| Script.SelectorRoundTrip | apps/cohsh/src/lib.rs:242-291 | a rendered selector reads back as itself |
| Script.ParseWaitOfDecimal | apps/cohsh/src/lib.rs:293-329 | a rendered wait reads back as itself |
| Script.TokenStable | apps/cohsh/src/lib.rs:393-432 | a token read again at the same point is itself, and a command exactly when the line was |
| Script.TokenizeIdempotent | apps/cohsh/src/lib.rs:331-432 | tokenising the newline-joined tokens gives the same tokens |
| Lifecycle.Node.constructor | apps/root-task/src/lifecycle.rs:149-159 | the configured initial state, no session |
| Lifecycle.Node.Command | apps/root-task/src/lifecycle.rs:259-283 | one command's transition or error; on error nothing changes |
| Lifecycle.Node.AutoTransition | apps/root-task/src/lifecycle.rs:289-307 | one automatic transition or error |
| Lifecycle.Node.MarkSessionActive | apps/root-task/src/lifecycle.rs:201-205 | active, seen now, no cuts |
| Lifecycle.Node.RecordActivity | apps/root-task/src/lifecycle.rs:207-211 | seen now, only while active |
| Lifecycle.Node.MarkCut | apps/root-task/src/lifecycle.rs:213-227 | inactive, the reason added to the cut flags |
| Lifecycle.Node.MarkPolicyDenied | apps/root-task/src/lifecycle.rs:229-233 | the policy flag, only while inactive |
| Lifecycle.StateIsLastMove | apps/root-task/src/lifecycle.rs:259-307 | the state is where the last successful transition went |
| Lifecycle.MovesAre | apps/root-task/src/lifecycle.rs:259-283 | the commands move exactly along this table of states, those that need no lease out only without one, and are refused for leases exactly then |
| Lifecycle.AutoIs | apps/root-task/src/lifecycle.rs:289-307 | an automatic transition is made exactly when it is configured and leaves the state, and which error each other case gives |
| Lifecycle.ReplayIsState | apps/cohsh/src/lib.rs:4064-4077 | over any run without automatic transitions, a client following the commands with its own pre-check and the lease counts knows the server's state |
| Lifecycle.GateIff | apps/root-task/src/lifecycle.rs:75-91 | the new-work gate is open exactly after a resume or an automatic transition into online or degraded, or from the start |
| Lifecycle.CordonHolds | apps/root-task/src/lifecycle.rs:259-283 | after a cordon the gate stays shut until a resume or such an automatic transition succeeds |
| Lifecycle.SnapshotIsHistory | apps/root-task/src/lifecycle.rs:174-233 | reachability, last seen and cut reason follow from the events since the last activation, revocation before policy before network |
| Latency.LatencySamples.constructor | apps/root-task/src/observe.rs:123-128 | an empty ring |
| Latency.LatencySamples.Record | apps/root-task/src/observe.rs:131-145 | the ring keeps holding the most recent samples, as many as fit |
| Latency.LatencySamples.RecordMs | apps/root-task/src/observe.rs:104-107 | the sample is cut to 32 bits |
| Latency.LatencySamples.GetPercentile | apps/root-task/src/observe.rs:147-162 | the percentile of the most recent samples, whatever order the ring holds them in |
| Latency.SortedElements | apps/root-task/src/observe.rs:158-158 | sorting keeps the samples |
| Latency.PercentileHasRank | apps/root-task/src/observe.rs:147-162 | up to 100, the result is a recent sample of rank (count-1)*pct/100 |
| Latency.PercentileOutside | apps/root-task/src/observe.rs:147-162 | 0 without samples and for an index past the last |
| Latency.RankOrders | apps/root-task/src/observe.rs:147-162 | ranks determine values and order them |
| Latency.PercentileMonotone | apps/root-task/src/observe.rs:110-121 | percentiles do not decrease, so the 50th is at most the 95th |
| Spool.OfflineSpool.constructor | apps/sidecar-bus/src/lib.rs:82-89 | an empty spool, numbering from 1 |
| Spool.OfflineSpool.Add | apps/sidecar-bus/src/lib.rs:116-137 | a payload is numbered and queued, or refused as too large or as not fitting, and then nothing changes |
| Spool.OfflineSpool.Drain | apps/sidecar-bus/src/lib.rs:140-147 | the loop returns the queue in order and empties it, numbering going on |
| Spool.BusAdapter.constructor | apps/sidecar-bus/src/lib.rs:225-232 | an adapter starts offline with an empty spool |
| Spool.BusAdapter.SetState | apps/sidecar-bus/src/lib.rs:247-249 | only the link changes |
| Spool.BusAdapter.Enqueue | apps/sidecar-bus/src/lib.rs:252-260 | online, delivered and nothing spooled; offline, the spool's answer |
| Spool.BusAdapter.DrainSpool | apps/sidecar-bus/src/lib.rs:263-265 | the spool's frames |
| Spool.Conservation | apps/sidecar-bus/src/lib.rs:80-266 | over any run, frames drained then queued are the payloads accepted offline, in order, numbered from 1; queued are those since the last drain and the byte count is theirs |
| Spool.AnswerIs | apps/sidecar-bus/src/lib.rs:116-260 | after any run, an offline payload is queued under the next number exactly when a frame is free and its bytes fit beside those pending, refused as oversize exactly when it alone exceeds the byte limit, and as full otherwise |
| Spool.BoundsHold | apps/sidecar-bus/src/lib.rs:116-137 | at most the configured frames and bytes are pending at any point of any run |

## Left out

- Cpio.ReadEntryAt: a header field is any spelling of a number that Python's `int` takes, but a negative number counts as a bad field here; with a negative data length the source's offset can move backwards.
- Elfloader.PrepareElfloader: the archive bounds are parameters; ELF headers, the `nm` lookup and file reading are not modelled.
- Publish.PublishDelivers: SHA-256 is an arbitrary function with 32-byte results, so nothing is claimed about collisions.
- JsonGrammar.ReadDocumentIff: the library limits nesting to 128 levels and lets lone surrogates pass in members it ignores; the reader here does neither.
- TailStream.Server.Read: transport failures carry no detail.
- TelemetrySearch.SelectPayloadLen: stated for texts its search ends on, because on the others the loop does not return; `FittingEndsIffRoomy` and `EndsIffNeverStuck` say which those are.
- TelemetrySearch.BuildRecords: likewise stated for texts all of whose searches end.
- SessionPool.Pool.Attach: roles and tickets carried by sessions are not modelled; sessions are numbered by spawn order.
- PoolBench.WorkConserved: a write that succeeds is taken to have written its whole batch, and the counters do not overflow.
- KernelTimer.Kernel.PollOnce: the counter reading is a parameter; the two hardware and dummy back ends are not modelled.
- Faults.FaultRegistry.HandleFatalFault: register decoding, log lines, replies and the result of the suspend call are not modelled; names, entry points and stack ranges of sources are dropped.
- Faults.FaultRegistry.RegisterSource: badge allocation is not modelled.
- Lifecycle.Node.Command: the text of reasons and the parsing of command lines are not modelled.
- Latency.LatencySamples.GetPercentile: the library sort is insertion sort here.
- Spool.BoundsHold: the byte bound is stated for limits below the largest machine word; at that limit it rests on memory being smaller.
- Script.ParseScriptLines: input is text; read errors are not modelled.
- The append-only write tracker, mount root listings and the other lifecycle gates: single-branch facts.
- Server and client transports, FUSE replies, consoles and TLS: input and output only.
- seL4 calls, capability minting, bootstrap sequencing and bootstrap message staging: foreign calls and logging, or no state machine to speak of.
- Signatures, CBOR, TOML, policy field checks, command-line parsing and generated constants: library code or finite facts.
- Real time, thread fairness and sleeping: only atomic steps and counter values are modelled.
