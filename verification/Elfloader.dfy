/**
 The in-place rewrite of an elfloader image (scripts/lib/strip_elfloader_modules.py): the archive window
 is parsed, the first `rootserver` entry gets a new payload, and the rebuilt archive is spliced back,
 zero padded. The window's bounds are given; finding them in the ELF symbol table is not modelled.
 */
module Elfloader {
  import opened Outcome
  import opened Cpio
  import Utf8

  type byte = Utf8.byte

  const ROOTSERVER := "rootserver"

  datatype ImageError =
    | OutsideImage
    | BadArchive(why: Cpio.Error)
    | NoRootserver
    | ExceedsOriginal(rebuilt: nat, original: nat)

  datatype Summary = Summary(originalLen: nat, rebuiltLen: nat, delta: int)

  /** The index of the first entry with the name, or the length. */
  function FirstNamed(es: seq<Entry>, name: string): (k: nat)
    ensures k <= |es|
    ensures k < |es| ==> es[k].name == name
    ensures forall i :: 0 <= i < k ==> es[i].name != name
    decreases |es|
  {
    if es == [] || es[0].name == name then 0 else 1 + FirstNamed(es[1..], name)
  }

  /** The entries with only the data of the first `rootserver` entry replaced. */
  function WithRootserver(es: seq<Entry>, payload: seq<byte>): seq<Entry>
    requires FirstNamed(es, ROOTSERVER) < |es|
  {
    var k := FirstNamed(es, ROOTSERVER);
    es[k := es[k].(data := payload)]
  }

  /** `_rewrite_rootserver`: a search that stops at the first match and assigns it in place. */
  method RewriteRootserver(entries: array<Entry>, payload: seq<byte>) returns (sizes: Option<(nat, nat)>)
    modifies entries
    ensures sizes.Some? <==> FirstNamed(old(entries[..]), ROOTSERVER) < entries.Length
    ensures sizes.None? ==> entries[..] == old(entries[..])
    ensures sizes.Some? ==>
              var k := FirstNamed(old(entries[..]), ROOTSERVER);
              && entries[..] == WithRootserver(old(entries[..]), payload)
              && sizes.value == (|old(entries[k].data)|, |payload|)
  {
    for i := 0 to entries.Length
      invariant entries[..] == old(entries[..])
      invariant forall j :: 0 <= j < i ==> entries[j].name != ROOTSERVER
    {
      if entries[i].name == ROOTSERVER {
        ghost var es := entries[..];
        assert es[i].name == ROOTSERVER && FirstNamed(es, ROOTSERVER) == i;
        var size := |entries[i].data|;
        entries[i] := entries[i].(data := payload);
        return Some((size, |payload|));
      }
    }
    assert forall j :: 0 <= j < |entries[..]| ==> entries[..][j].name != ROOTSERVER;
    return None;
  }

  /** The image with `rebuilt` at `start` and zeros from there to `end`. */
  function Splice(image: seq<byte>, start: nat, end: nat, rebuilt: seq<byte>): (r: seq<byte>)
    requires start + |rebuilt| <= end <= |image|
    ensures |r| == |image|
  {
    image[..start] + rebuilt + Zeros(end - start - |rebuilt|) + image[end..]
  }

  /** The archive rebuilt around the new payload, and the change in the payload's size. */
  function Rebuild(archive: seq<byte>, payload: seq<byte>): Result<(seq<byte>, int), ImageError> {
    var parsed := Parse(archive);
    if parsed.Err? then Err(BadArchive(parsed.error))
    else
      var es := parsed.value;
      var k := FirstNamed(es, ROOTSERVER);
      if k == |es| then Err(NoRootserver)
      else Ok((Build(WithRootserver(es, payload)), |payload| - |es[k].data|))
  }

  /** `prepare_elfloader` on the bytes of the image. */
  function Prepare(image: seq<byte>, start: int, end: int, payload: seq<byte>): Result<(seq<byte>, Summary), ImageError>
    requires start < end
  {
    if start < 0 || end > |image| then Err(OutsideImage)
    else
      var (rebuilt, delta) :- Rebuild(image[start..end], payload);
      if |rebuilt| > end - start then Err(ExceedsOriginal(|rebuilt|, end - start))
      else Ok((Splice(image, start, end, rebuilt), Summary(end - start, |rebuilt|, delta)))
  }

  /** `data[at:at + len(src)] = src` on a byte array of fixed size. */
  method Overwrite(data: array<byte>, at: nat, src: seq<byte>)
    requires at + |src| <= data.Length
    modifies data
    ensures data[..] == old(data[..at]) + src + old(data[at + |src|..])
  {
    for i := 0 to |src|
      invariant data[..at] == old(data[..at])
      invariant data[at..at + i] == src[..i]
      invariant data[at + i..] == old(data[at + i..])
    {
      data[at + i] := src[i];
    }
  }

  method RebuildArchive(archive: seq<byte>, payload: seq<byte>) returns (r: Result<(seq<byte>, int), ImageError>)
    ensures r == Rebuild(archive, payload)
  {
    hide Parse, Build;
    var parsed := ParseCpio(archive);
    if parsed.Err? {
      return Err(BadArchive(parsed.error));
    }
    var es := parsed.value;
    var entries := new Entry[|es|](i requires 0 <= i < |es| => es[i]);
    assert entries[..] == es;
    var sizes := RewriteRootserver(entries, payload);
    if sizes.None? {
      return Err(NoRootserver);
    }
    var rebuilt := BuildCpio(entries[..]);
    var oldSize: int, newSize: int := sizes.value.0, sizes.value.1;
    r := Ok((rebuilt, newSize - oldSize));
  }

  /** The two slice assignments: the rebuilt archive, then zeros up to the old end. */
  method SpliceInPlace(data: array<byte>, start: nat, end: nat, rebuilt: seq<byte>)
    requires start + |rebuilt| <= end <= data.Length
    modifies data
    ensures data[..] == Splice(old(data[..]), start, end, rebuilt)
  {
    var padding := end - start - |rebuilt|;
    Overwrite(data, start, rebuilt);
    assert data[..] == old(data[..])[..start] + rebuilt + old(data[..])[start + |rebuilt|..];
    if padding > 0 {
      ghost var now := data[..];
      Overwrite(data, start + |rebuilt|, Zeros(padding));
      assert now[..start + |rebuilt|] == old(data[..])[..start] + rebuilt;
    }
  }

  /** The whole rewrite: on success the array holds the spliced image, on failure it is untouched. */
  method PrepareElfloader(data: array<byte>, start: int, end: int, payload: seq<byte>)
    returns (r: Result<Summary, ImageError>)
    requires start < end
    modifies data
    ensures var p := Prepare(old(data[..]), start, end, payload);
            if p.Ok? then r == Ok(p.value.1) && data[..] == p.value.0
            else r == Err(p.error) && data[..] == old(data[..])
  {
    hide Rebuild, Splice;
    if start < 0 || end > data.Length {
      return Err(OutsideImage);
    }
    var archive := data[start..end];
    assert archive == old(data[..])[start..end];
    var rebuild :- RebuildArchive(archive, payload);
    var (rebuilt, delta) := rebuild;
    if |rebuilt| > |archive| {
      return Err(ExceedsOriginal(|rebuilt|, |archive|));
    }
    SpliceInPlace(data, start, end, rebuilt);
    r := Ok(Summary(|archive|, |rebuilt|, delta));
  }

  // ----- the rewrite preserves meaning -----

  lemma {:induction false} WithRootserverIsArchive(es: seq<Entry>, payload: seq<byte>)
    requires IsArchive(es) && FirstNamed(es, ROOTSERVER) < |es| && |payload| < FIELD_LIMIT
    ensures IsArchive(WithRootserver(es, payload))
  {
    hide FirstNamed, Utf8.Len, EndsInNul;
    var k := FirstNamed(es, ROOTSERVER);
    var fs := WithRootserver(es, payload);
    assert forall i :: 0 <= i < |es| ==> fs[i].name == es[i].name && fs[i].fields == es[i].fields;
    forall i | 0 <= i < |fs| ensures Encodable(fs[i]) {
      assert Encodable(es[i]);
    }
  }

  lemma {:induction false} PayloadIsInside(es: seq<Entry>, k: nat)
    requires k < |es|
    ensures |es[k].data| <= |Build(es)|
    decreases |es|
  {
    if k > 0 {
      hide EntryBytes;
      PayloadIsInside(es[1..], k - 1);
    }
  }

  /** `k` is the entry the rewrite is about: named `rootserver`, no earlier one being. */
  predicate IsRootserver(es: seq<Entry>, k: nat) {
    k < |es| && es[k].name == "rootserver" && forall i :: 0 <= i < k ==> es[i].name != "rootserver"
  }

  predicate HasRootserver(es: seq<Entry>) {
    exists i :: 0 <= i < |es| && es[i].name == "rootserver"
  }

  /** The entries with the data of entry `k` replaced and nothing else. */
  predicate IsReplaced(es: seq<Entry>, k: nat, payload: seq<byte>, fs: seq<Entry>)
    requires k < |es|
  {
    && |fs| == |es|
    && fs[k] == Entry(es[k].name, es[k].fields, payload)
    && forall i :: 0 <= i < |es| && i != k ==> fs[i] == es[i]
  }

  lemma {:induction false} RootserverIs(es: seq<Entry>)
    ensures FirstNamed(es, ROOTSERVER) < |es| <==> HasRootserver(es)
    ensures forall k :: IsRootserver(es, k) ==> k == FirstNamed(es, ROOTSERVER)
    ensures HasRootserver(es) ==> IsRootserver(es, FirstNamed(es, ROOTSERVER))
  {
    hide FirstNamed;
  }

  lemma {:induction false} ReplacedIs(es: seq<Entry>, k: nat, payload: seq<byte>, fs: seq<Entry>)
    requires IsRootserver(es, k) && IsReplaced(es, k, payload, fs)
    ensures k == FirstNamed(es, ROOTSERVER) < |es| && fs == WithRootserver(es, payload)
  {
    hide FirstNamed;
    RootserverIs(es);
  }

  /** Where the rewrite fails before building anything, and with what. */
  lemma {:induction false} PrepareRefuses(image: seq<byte>, start: int, end: int, payload: seq<byte>)
    requires start < end
    ensures var r := Prepare(image, start, end, payload);
            && (r == Err(OutsideImage) <==> start < 0 || end > |image|)
            && (0 <= start && end <= |image| ==>
                  var parsed := Parse(image[start..end]);
                  && (parsed.Err? ==> r == Err(BadArchive(parsed.error)))
                  && (parsed.Ok? ==> (r == Err(NoRootserver) <==> !HasRootserver(parsed.value))))
  {
    hide Parse, Build, FirstNamed, Splice, WithRootserver, HasRootserver;
    if 0 <= start && end <= |image| && Parse(image[start..end]).Ok? {
      RootserverIs(Parse(image[start..end]).value);
    }
  }

  /**
   Otherwise the rewrite succeeds exactly when the archive built around the new payload is no longer than the window,
   an exact fit included, and says what it did; a longer one is refused with both lengths.
   */
  lemma {:induction false} PrepareSucceedsIff(image: seq<byte>, start: nat, end: nat, payload: seq<byte>, k: nat, fs: seq<Entry>)
    requires start < end <= |image| && Parse(image[start..end]).Ok?
    requires IsRootserver(Parse(image[start..end]).value, k) && IsReplaced(Parse(image[start..end]).value, k, payload, fs)
    ensures var r, was := Prepare(image, start, end, payload), Parse(image[start..end]).value[k].data;
            && (r.Ok? <==> |Build(fs)| <= end - start)
            && (r.Ok? ==> r.value.1 == Summary(end - start, |Build(fs)|, |payload| - |was|))
            && (r.Err? ==> r == Err(ExceedsOriginal(|Build(fs)|, end - start)))
  {
    hide Parse, Build, FirstNamed, Splice, WithRootserver, IsRootserver, IsReplaced;
    ReplacedIs(Parse(image[start..end]).value, k, payload, fs);
  }

  lemma {:induction false} PrepareOk(image: seq<byte>, start: nat, end: nat, payload: seq<byte>)
    requires start < end <= |image| && Prepare(image, start, end, payload).Ok?
    ensures var window := image[start..end];
            && Parse(window).Ok?
            && var es := Parse(window).value;
               && FirstNamed(es, ROOTSERVER) < |es|
               && |Build(WithRootserver(es, payload))| <= end - start
               && Prepare(image, start, end, payload).value.0
                  == Splice(image, start, end, Build(WithRootserver(es, payload)))
  {
    hide Parse, Build, WithRootserver, Splice;
  }

  /** Entries are alike but for the two length fields, which are true in the second. */
  predicate AlikeButLengths(e: Entry, f: Entry) {
    && f.name == e.name && f.data == e.data
    && f.fields[6] == |e.data| && f.fields[11] == Utf8.Len(e.name) + 1
    && forall i :: 0 <= i < 13 && i != 6 && i != 11 ==> f.fields[i] == e.fields[i]
  }

  /** The entries in order, but for the lengths, with the data of entry `k` replaced. */
  predicate Rewritten(es: seq<Entry>, k: nat, payload: seq<byte>, fs: seq<Entry>) {
    && |fs| == |es|
    && forall i :: 0 <= i < |es| ==>
         AlikeButLengths(if i == k then Entry(es[i].name, es[i].fields, payload) else es[i], fs[i])
  }

  /**
   A successful rewrite keeps the image's length and every byte outside the window, and the window then
   parses to the old entries, in order, with only the first `rootserver` entry's data replaced and the
   length fields corrected. The names and the payload need lengths of eight hexadecimal digits, which those of a
   window under 2^32 bytes always have.
   */
  lemma {:induction false} RewritePreservesMeaning(image: seq<byte>, start: nat, end: nat, payload: seq<byte>, k: nat)
    requires start < end <= |image| && Prepare(image, start, end, payload).Ok?
    requires Parse(image[start..end]).Ok? ==> IsRootserver(Parse(image[start..end]).value, k)
    ensures var image' := Prepare(image, start, end, payload).value.0;
            && |image'| == |image| && image'[..start] == image[..start] && image'[end..] == image[end..]
            && Parse(image[start..end]).Ok?
            && var es := Parse(image[start..end]).value;
               && (end - start < FIELD_LIMIT ==> NamesFit(es) && |payload| < FIELD_LIMIT)
               && (NamesFit(es) && |payload| < FIELD_LIMIT ==>
                     Parse(image'[start..end]).Ok? && Rewritten(es, k, payload, Parse(image'[start..end]).value))
  {
    hide Parse, Build, IsArchive, WithRootserver, Prepare, NamesFit, Splice, Normals, FirstNamed, Rewritten, IsRootserver;
    PrepareOk(image, start, end, payload);
    var window := image[start..end];
    ParsedIsArchive(window);
    var es := Parse(window).value;
    var fs := WithRootserver(es, payload);
    var rebuilt := Build(fs);
    PayloadFits(es, payload);
    SpliceShape(image, start, end, rebuilt);
    if NamesFit(es) && |payload| < FIELD_LIMIT {
      RebuiltParses(es, payload, k, end - start - |rebuilt|);
    }
  }

  lemma {:induction false} RebuiltParses(es: seq<Entry>, payload: seq<byte>, k: nat, padding: nat)
    requires IsArchive(es) && FirstNamed(es, ROOTSERVER) < |es| && IsRootserver(es, k) && |payload| < FIELD_LIMIT
    ensures var r := Parse(Build(WithRootserver(es, payload)) + Zeros(padding)); r.Ok? && Rewritten(es, k, payload, r.value)
  {
    hide Parse, Build, IsArchive, WithRootserver, Normals, FirstNamed, Rewritten, IsRootserver;
    WithRootserverIsArchive(es, payload);
    ParseOfBuild(WithRootserver(es, payload), Zeros(padding));
    ReplacedAlike(es, payload, k);
  }

  lemma {:induction false} ReplacedAlike(es: seq<Entry>, payload: seq<byte>, k: nat)
    requires FirstNamed(es, ROOTSERVER) < |es| && IsRootserver(es, k)
    ensures Rewritten(es, k, payload, Normals(WithRootserver(es, payload)))
  {
    hide FirstNamed, Normals, IsRootserver, AlikeButLengths, Normal;
    RootserverIs(es);
    var fs := WithRootserver(es, payload);
    forall i | 0 <= i < |es|
      ensures AlikeButLengths(if i == k then Entry(es[i].name, es[i].fields, payload) else es[i], Normals(fs)[i])
    {
      assert fs[i] == if i == k then Entry(es[i].name, es[i].fields, payload) else es[i];
      NormalIsAlike(fs[i]);
    }
  }

  lemma {:induction false} NormalIsAlike(e: Entry)
    ensures AlikeButLengths(e, Normal(e))
  {}

  // ----- a payload that is not longer always fits -----

  lemma {:induction false} ReplacedFits(es: seq<Entry>, k: nat, payload: seq<byte>, fs: seq<Entry>)
    requires k < |es| && IsReplaced(es, k, payload, fs) && |payload| <= |es[k].data|
    requires forall i :: 0 <= i < |es| ==> Encodable(es[i])
    ensures |Build(fs)| <= |Build(es)|
    decreases |es|
  {
    hide Encodable, EntryBytes;
    if k == 0 {
      assert fs[1..] == es[1..];
      assert Encodable(fs[0]) by {
        ShorterEncodable(es[0], payload);
      }
      EntryLen(es[0]);
      EntryLen(fs[0]);
    } else {
      assert IsReplaced(es[1..], k - 1, payload, fs[1..]);
      assert fs[0] == es[0];
      ReplacedFits(es[1..], k - 1, payload, fs[1..]);
    }
  }

  lemma {:induction false} ShorterEncodable(e: Entry, payload: seq<byte>)
    requires Encodable(e) && |payload| <= |e.data|
    ensures Encodable(Entry(e.name, e.fields, payload))
  {}

  lemma {:induction false} BuildOfNormals(es: seq<Entry>)
    ensures Build(Normals(es)) == Build(es)
    decreases |es|
  {
    hide HexAll, Padded, Utf8.Encode;
    if es != [] {
      assert TrueFields(Normal(es[0])) == TrueFields(es[0]);
      assert Normals(es)[1..] == Normals(es[1..]);
      BuildOfNormals(es[1..]);
    }
  }

  lemma {:induction false} NormalsAreEncodable(es: seq<Entry>)
    requires IsArchive(es)
    ensures forall i :: 0 <= i < |es| ==> Encodable(Normals(es)[i])
  {
    hide EndsWithTrailer, Utf8.Len, EndsInNul;
    forall i | 0 <= i < |es| ensures Encodable(Normals(es)[i]) {
      assert Encodable(es[i]);
    }
  }

  /** On a window that is a built archive, whatever follows it, a root server no longer than the old one always goes in. */
  lemma {:induction false} SmallerPayloadSucceeds(image: seq<byte>, start: nat, end: nat, es: seq<Entry>, suffix: seq<byte>, k: nat, payload: seq<byte>)
    requires start < end <= |image| && IsArchive(es) && image[start..end] == Build(es) + suffix
    requires IsRootserver(es, k) && |payload| <= |es[k].data|
    ensures Prepare(image, start, end, payload).Ok?
  {
    hide Prepare, Parse, Build, IsArchive, FirstNamed, Encodable, Normal;
    ParseOfBuild(es, suffix);
    NormalsAreEncodable(es);
    BuildOfNormals(es);
    var ns := Normals(es);
    NormalsKeep(es);
    hide Normals;
    assert IsRootserver(ns, k);
    var fs := ns[k := Entry(ns[k].name, ns[k].fields, payload)];
    assert IsReplaced(ns, k, payload, fs);
    ReplacedFits(ns, k, payload, fs);
    PrepareSucceedsIff(image, start, end, payload, k, fs);
  }

  lemma {:induction false} NormalsKeep(es: seq<Entry>)
    ensures forall i :: 0 <= i < |es| ==> Normals(es)[i].name == es[i].name && Normals(es)[i].data == es[i].data
  {
    hide TrueFields;
  }

  lemma {:induction false} SpliceShape(image: seq<byte>, start: nat, end: nat, rebuilt: seq<byte>)
    requires start + |rebuilt| <= end <= |image|
    ensures var image' := Splice(image, start, end, rebuilt);
            && image'[..start] == image[..start]
            && image'[start..end] == rebuilt + Zeros(end - start - |rebuilt|)
            && image'[end..] == image[end..]
  {}

  lemma {:induction false} PayloadFits(es: seq<Entry>, payload: seq<byte>)
    requires FirstNamed(es, ROOTSERVER) < |es|
    ensures |payload| <= |Build(WithRootserver(es, payload))|
  {
    PayloadIsInside(WithRootserver(es, payload), FirstNamed(es, ROOTSERVER));
  }
}
