/**
 The CPIO side of scripts/lib/strip_elfloader_modules.py: the reader and the writer of the SVR4 "newc"
 archive format (New ASCII Format of cpio(5)), each as the loop it is and as the function it computes.
 */
module Cpio {
  import opened Outcome
  import opened Utf8

  /** The thirteen numbers of a header; 6 is the data length, 11 the name length. */
  type Fields = f: seq<nat> | |f| == 13 witness [0, 0, 0, 0, 0, 0, 0, 0, 0, 0, 0, 0, 0]

  datatype Entry = Entry(name: string, fields: Fields, data: seq<byte>)

  datatype Error =
    | BadField
    | TruncatedName
    | BadNameEncoding
    | DataOutOfBounds(name: string)
    | NoTrailer

  /** "070701" */
  const MAGIC: seq<byte> := [48, 55, 48, 55, 48, 49]
  const TRAILER := "TRAILER!!!"
  const HEADER_LEN: nat := 110
  const FIELD_LIMIT: nat := 0x1_0000_0000

  /** `(n + 3) & ~3` */
  function Align4(n: nat): (r: nat)
    ensures n <= r < n + 4 && r % 4 == 0
  {
    (n + 3) / 4 * 4
  }

  function Zeros(n: nat): (r: seq<byte>)
    ensures |r| == n
  {
    seq(n, _ => 0)
  }

  /** `s[lo:hi]` of Python for non-negative bounds. */
  function Slice(s: seq<byte>, lo: nat, hi: nat): (r: seq<byte>)
    requires lo <= hi
    ensures hi <= |s| ==> |r| == hi - lo
  {
    if hi <= |s| then s[lo..hi] else if lo <= |s| then s[lo..] else []
  }

  // ----- hexadecimal fields -----

  function HexDigit(d: nat): byte
    requires d < 16
  {
    if d < 10 then 48 + d else 55 + d
  }

  function HexValue(b: byte): (r: Option<nat>)
    ensures r.Some? ==> r.value < 16
  {
    if 48 <= b <= 57 then Some(b - 48)
    else if 65 <= b <= 70 then Some(b - 55)
    else if 97 <= b <= 102 then Some(b - 87)
    else None
  }

  /** Upper-case hexadecimal with at least `width` digits: `f"{value:08X}"` is width 8. */
  function Hex(n: nat, width: nat): (r: seq<byte>)
    ensures |r| >= width
    decreases n + width
  {
    if n == 0 && width == 0 then []
    else Hex(n / 16, if width == 0 then 0 else width - 1) + [HexDigit(n % 16)]
  }

  /** The value of a run of hexadecimal digits. */
  function Unhex(s: seq<byte>): Option<nat> {
    if s == [] then Some(0)
    else
      var hi :- Unhex(s[..|s| - 1]);
      var lo :- HexValue(s[|s| - 1]);
      Some(hi * 16 + lo)
  }

  lemma {:induction false} HexValueOfDigit(d: nat)
    requires d < 16
    ensures HexValue(HexDigit(d)) == Some(d)
  {}

  lemma {:induction false} UnhexOfHex(n: nat, width: nat)
    ensures Unhex(Hex(n, width)) == Some(n)
    decreases n + width
  {
    hide HexDigit, HexValue;
    if n != 0 || width != 0 {
      HexValueOfDigit(n % 16);
      var w := if width == 0 then 0 else width - 1;
      UnhexOfHex(n / 16, w);
      var s := Hex(n, width);
      assert s[..|s| - 1] == Hex(n / 16, w) && s[|s| - 1] == HexDigit(n % 16);
    }
  }

  function Pow16(k: nat): nat {
    if k == 0 then 1 else 16 * Pow16(k - 1)
  }

  /** A number keeps to its field exactly when it is below the field's limit. */
  lemma {:induction false} HexLen(n: nat, width: nat)
    ensures |Hex(n, width)| == width <==> n < Pow16(width)
    decreases width
  {
    if width > 0 {
      HexLen(n / 16, width - 1);
    }
  }

  lemma {:induction false} UnhexBound(s: seq<byte>)
    ensures Unhex(s).Some? ==> Unhex(s).value < Pow16(|s|)
  {
    if s != [] {
      UnhexBound(s[..|s| - 1]);
    }
  }

  lemma {:induction false} Pow16Of8()
    ensures Pow16(8) == FIELD_LIMIT
  {
    assert Pow16(4) == 65536;
    assert Pow16(8) == 16 * (16 * (16 * (16 * Pow16(4))));
  }

  // ----- the spellings of a number -----

  predicate IsBlank(b: byte) {
    9 <= b <= 13 || b == 32
  }

  function StripLeft(s: seq<byte>): (r: seq<byte>)
    ensures |r| <= |s|
  {
    if s != [] && IsBlank(s[0]) then StripLeft(s[1..]) else s
  }

  function StripRight(s: seq<byte>): (r: seq<byte>)
    ensures |r| <= |s|
  {
    if s != [] && IsBlank(s[|s| - 1]) then StripRight(s[..|s| - 1]) else s
  }

  /** Digits with single underscores between them, the underscores taken out. */
  function WithoutUnderscores(s: seq<byte>): (r: Option<seq<byte>>)
    ensures r.Some? ==> 1 <= |r.value| <= |s|
    decreases |s|
  {
    if s == [] || s[0] == 95 then None
    else if |s| == 1 then Some(s)
    else
      var rest :- WithoutUnderscores(if s[1] == 95 then s[2..] else s[1..]);
      Some([s[0]] + rest)
  }

  /** Past `0x` or `0X`, and an underscore after it. */
  function AfterPrefix(s: seq<byte>): (r: seq<byte>)
    ensures |r| <= |s|
  {
    if |s| >= 2 && s[0] == 48 && (s[1] == 120 || s[1] == 88) then
      if |s| >= 3 && s[2] == 95 then s[3..] else s[2..]
    else s
  }

  /** Digits after an optional prefix. */
  function Magnitude(s: seq<byte>): Option<nat> {
    var digits :- WithoutUnderscores(AfterPrefix(s));
    Unhex(digits)
  }

  /** `int(text, 16)` where it is not negative: blanks around, a sign, a prefix, digits and underscores. */
  function IntOf(text: seq<byte>): Option<nat> {
    var t := StripRight(StripLeft(text));
    if t != [] && t[0] == 43 then Magnitude(t[1..])
    else if t != [] && t[0] == 45 then
      var n :- Magnitude(t[1..]);
      if n == 0 then Some(0) else None
    else Magnitude(t)
  }

  lemma {:induction false} MagnitudeBound(s: seq<byte>)
    ensures Magnitude(s).Some? ==> Magnitude(s).value < Pow16(|s|)
  {
    hide Unhex, Pow16, WithoutUnderscores, AfterPrefix;
    var digits := WithoutUnderscores(AfterPrefix(s));
    if digits.Some? {
      UnhexBound(digits.value);
      Pow16Grows(|digits.value|, |s|);
    }
  }

  lemma {:induction false} IntBound(text: seq<byte>)
    ensures IntOf(text).Some? ==> IntOf(text).value < Pow16(|text|)
  {
    hide Magnitude, Pow16, StripLeft, StripRight;
    var t := StripRight(StripLeft(text));
    Pow16Grows(0, |text|);
    if t != [] {
      MagnitudeBound(t[1..]);
      Pow16Grows(|t| - 1, |text|);
    }
    MagnitudeBound(t);
    Pow16Grows(|t|, |text|);
  }

  predicate IsUpperDigit(b: byte) {
    48 <= b <= 57 || 65 <= b <= 70
  }

  predicate AreUpperDigits(s: seq<byte>) {
    forall i :: 0 <= i < |s| ==> IsUpperDigit(s[i])
  }

  lemma {:induction false} HexIsUpper(n: nat, width: nat)
    ensures AreUpperDigits(Hex(n, width))
    decreases n + width
  {
    if n != 0 || width != 0 {
      HexIsUpper(n / 16, if width == 0 then 0 else width - 1);
    }
  }

  lemma {:induction false} NoUnderscores(s: seq<byte>)
    requires s != [] && AreUpperDigits(s)
    ensures WithoutUnderscores(s) == Some(s)
    decreases |s|
  {
    assert IsUpperDigit(s[0]);
    if |s| > 1 {
      assert IsUpperDigit(s[1]);
      NoUnderscores(s[1..]);
      assert s == [s[0]] + s[1..];
    }
  }

  /** Plain digits, as they are written, are read as their value. */
  lemma {:induction false} IntOfHex(n: nat, width: nat)
    requires width > 0
    ensures IntOf(Hex(n, width)) == Some(n)
  {
    var s := Hex(n, width);
    UnhexOfHex(n, width);
    HexIsUpper(n, width);
    NoUnderscores(s);
    hide Hex, Unhex, WithoutUnderscores, HexDigit;
    assert IsUpperDigit(s[0]) && IsUpperDigit(s[|s| - 1]);
    assert |s| >= 2 ==> IsUpperDigit(s[1]);
    assert StripLeft(s) == s && StripRight(s) == s && AfterPrefix(s) == s;
  }

  function Lower(s: seq<byte>): (r: seq<byte>)
    ensures |r| == |s|
  {
    seq(|s|, i requires 0 <= i < |s| => if 65 <= s[i] <= 70 then s[i] + 32 else s[i])
  }

  predicate AreDigits(s: seq<byte>) {
    forall i :: 0 <= i < |s| ==> HexValue(s[i]).Some?
  }

  /** Lower-case digits read like upper-case ones. */
  lemma {:induction false} UnhexLower(s: seq<byte>)
    requires AreUpperDigits(s)
    ensures Unhex(Lower(s)) == Unhex(s) && AreDigits(Lower(s))
    decreases |s|
  {
    if s != [] {
      var n := |s| - 1;
      assert Lower(s)[..n] == Lower(s[..n]);
      assert IsUpperDigit(s[n]);
      UnhexLower(s[..n]);
    }
  }

  predicate AreBlanks(s: seq<byte>) {
    forall i :: 0 <= i < |s| ==> IsBlank(s[i])
  }

  lemma {:induction false} StripPadded(before: seq<byte>, s: seq<byte>, after: seq<byte>)
    requires AreBlanks(before) && AreBlanks(after) && s != [] && !IsBlank(s[0]) && !IsBlank(s[|s| - 1])
    ensures StripRight(StripLeft(before + s + after)) == s
    decreases |before| + |after|
  {
    hide IsBlank;
    var t := before + s + after;
    if before != [] {
      assert t[0] == before[0] && t[1..] == before[1..] + s + after;
      StripPadded(before[1..], s, after);
    } else if after != [] {
      var n := |after| - 1;
      assert StripLeft(t) == t && StripLeft(s + after[..n]) == s + after[..n];
      assert t == s + after && t[|t| - 1] == after[n] && t[..|t| - 1] == s + after[..n];
      assert [] + s + after[..n] == s + after[..n];
      StripPadded([], s, after[..n]);
    } else {
      assert t == s;
    }
  }

  lemma {:induction false} NoUnderscore(s: seq<byte>)
    requires s != [] && AreDigits(s)
    ensures WithoutUnderscores(s) == Some(s)
    decreases |s|
  {
    assert HexValue(s[0]).Some?;
    if |s| > 1 {
      assert HexValue(s[1]).Some?;
      NoUnderscore(s[1..]);
      assert s == [s[0]] + s[1..];
    }
  }

  lemma {:induction false} UnhexSome(s: seq<byte>)
    requires AreDigits(s)
    ensures Unhex(s).Some?
    decreases |s|
  {
    if s != [] {
      UnhexSome(s[..|s| - 1]);
    }
  }

  lemma {:induction false} MagnitudeIs(d: seq<byte>)
    requires d != [] && AreDigits(d)
    ensures Magnitude(d) == Magnitude([48, 120] + d) == Magnitude([48, 88] + d) == Magnitude([48, 120, 95] + d) == Unhex(d)
  {
    hide Unhex, WithoutUnderscores;
    assert HexValue(d[0]).Some? && (|d| > 1 ==> HexValue(d[1]).Some?);
    NoUnderscore(d);
    assert ([48, 120] + d)[2..] == d && ([48, 88] + d)[2..] == d && ([48, 120, 95] + d)[3..] == d;
    assert ([48, 120] + d)[2] == d[0] && ([48, 88] + d)[2] == d[0];
  }

  /** The spellings of a number: blanks around it, a plus sign, a prefix; a minus sign only before zero. */
  lemma {:induction false} IntSpellings(before: seq<byte>, d: seq<byte>, after: seq<byte>)
    requires AreBlanks(before) && AreBlanks(after) && d != [] && AreDigits(d)
    ensures IntOf(before + d + after) == Unhex(d)
    ensures IntOf(before + ([43] + d) + after) == Unhex(d)
    ensures IntOf(before + ([48, 120] + d) + after) == Unhex(d)
    ensures IntOf(before + ([48, 88] + d) + after) == Unhex(d)
    ensures IntOf(before + ([45] + d) + after) == if Unhex(d) == Some(0) then Some(0) else None
  {
    hide StripLeft, StripRight, Magnitude, Unhex;
    assert HexValue(d[0]).Some? && HexValue(d[|d| - 1]).Some?;
    MagnitudeIs(d);
    UnhexSome(d);
    StripPadded(before, d, after);
    StripPadded(before, [43] + d, after);
    StripPadded(before, [48, 120] + d, after);
    StripPadded(before, [48, 88] + d, after);
    StripPadded(before, [45] + d, after);
    assert ([43] + d)[1..] == d && ([45] + d)[1..] == d;
  }

  /** Single underscores between digits do not count. */
  lemma {:induction false} UnderscoreBetween(a: seq<byte>, b: seq<byte>)
    requires a != [] && b != [] && AreDigits(a) && AreDigits(b)
    ensures WithoutUnderscores(a + [95] + b) == Some(a + b)
    decreases |a|
  {
    var s := a + [95] + b;
    assert HexValue(a[0]).Some?;
    NoUnderscore(b);
    if |a| == 1 {
      assert s[1] == 95 && s[2..] == b;
      assert [s[0]] + b == a + b;
    } else {
      assert HexValue(a[1]).Some?;
      assert s[1] == a[1] && s[1..] == a[1..] + [95] + b;
      UnderscoreBetween(a[1..], b);
      assert [s[0]] + (a[1..] + b) == a + b;
    }
  }

  // ----- reading -----

  function FieldAt(s: seq<byte>, i: nat): Option<nat> {
    IntOf(Slice(s, 6 + 8 * i, 14 + 8 * i))
  }

  /** Fields `i` to 12 of the header at the front. */
  function ReadFields(s: seq<byte>, i: nat): (r: Option<seq<nat>>)
    requires i <= 13
    ensures r.Some? ==> |r.value| == 13 - i
    decreases 13 - i
  {
    if i == 13 then Some([])
    else
      var f :- FieldAt(s, i);
      var rest :- ReadFields(s, i + 1);
      Some([f] + rest)
  }

  /** `rstrip(b"\x00")` */
  function StripNuls(s: seq<byte>): (r: seq<byte>)
    ensures |r| <= |s| && r == s[..|r|]
    ensures r == [] || r[|r| - 1] != 0
  {
    if s != [] && s[|s| - 1] == 0 then StripNuls(s[..|s| - 1]) else s
  }

  /** The entry at the front of an aligned suffix of the archive, and the offset of the next one. */
  function ReadEntry(s: seq<byte>): (r: Result<(Entry, nat), Error>)
    ensures r.Ok? ==> r.value.1 > 0 && r.value.1 % 4 == 0 && r.value.1 < |s| + 4
  {
    var fields :- OkOr(ReadFields(s, 0), BadField);
    var nameSize, fileSize := fields[11], fields[6];
    var nameBytes := Slice(s, HEADER_LEN, HEADER_LEN + nameSize);
    if |nameBytes| != nameSize then Err(TruncatedName)
    else
      var name :- OkOr(Decode(StripNuls(nameBytes)), BadNameEncoding);
      var dataStart := Align4(HEADER_LEN + nameSize);
      var dataEnd := dataStart + fileSize;
      if dataEnd > |s| then Err(DataOutOfBounds(name))
      else Ok((Entry(name, fields, s[dataStart..dataEnd]), Align4(dataEnd)))
  }

  function Drop(s: seq<byte>, n: nat): seq<byte> {
    if n <= |s| then s[n..] else []
  }

  function ReadEntries(s: seq<byte>): Result<seq<Entry>, Error>
    decreases |s|
  {
    if !(MAGIC <= s) then Ok([])
    else
      var (entry, next) :- ReadEntry(s);
      if entry.name == TRAILER then Ok([entry])
      else
        var rest :- ReadEntries(Drop(s, next));
        Ok([entry] + rest)
  }

  predicate EndsWithTrailer(es: seq<Entry>) {
    es != [] && es[|es| - 1].name == TRAILER
  }

  /** `_parse_cpio` */
  function Parse(blob: seq<byte>): Result<seq<Entry>, Error> {
    var es :- ReadEntries(blob);
    if EndsWithTrailer(es) then Ok(es) else Err(NoTrailer)
  }

  lemma {:induction false} AlignFrom(pos: nat, n: nat)
    requires pos % 4 == 0
    ensures Align4(pos + n) == pos + Align4(n)
  {}

  lemma {:induction false} SliceFrom(s: seq<byte>, pos: nat, lo: nat, hi: nat)
    requires pos <= |s| && lo <= hi
    ensures Slice(s[pos..], lo, hi) == Slice(s, pos + lo, pos + hi)
  {}

  /** The body of the loop of `_parse_cpio`, at the absolute offset `pos`. */
  method ReadEntryAt(blob: seq<byte>, pos: nat) returns (r: Result<(Entry, nat), Error>)
    requires pos <= |blob| && pos % 4 == 0
    ensures var e := ReadEntry(blob[pos..]);
            r == if e.Ok? then Ok((e.value.0, pos + e.value.1)) else Err(e.error)
  {
    hide ReadFields, StripNuls, Decode, Align4, Slice;
    var fields :- OkOr(ReadFields(blob[pos..], 0), BadField);
    var fileSize, nameSize := fields[6], fields[11];
    var nameStart := pos + HEADER_LEN;
    SliceFrom(blob, pos, HEADER_LEN, HEADER_LEN + nameSize);
    var nameBytes := Slice(blob, nameStart, nameStart + nameSize);
    if |nameBytes| != nameSize {
      return Err(TruncatedName);
    }
    var name :- OkOr(Decode(StripNuls(nameBytes)), BadNameEncoding);
    AlignFrom(pos, HEADER_LEN + nameSize);
    var dataStart := Align4(nameStart + nameSize);
    var dataEnd := dataStart + fileSize;
    if dataEnd > |blob| {
      return Err(DataOutOfBounds(name));
    }
    AlignFrom(pos, dataEnd - pos);
    assert blob[pos..][dataStart - pos..dataEnd - pos] == blob[dataStart..dataEnd];
    r := Ok((Entry(name, fields, blob[dataStart..dataEnd]), Align4(dataEnd)));
  }

  /** `es` followed by whatever a continuation reads. */
  function After(es: seq<Entry>, r: Result<seq<Entry>, Error>): Result<seq<Entry>, Error> {
    if r.Ok? then Ok(es + r.value) else r
  }

  /** The loop of `_parse_cpio`: `pos` moves from aligned offset to aligned offset. */
  method ParseCpio(blob: seq<byte>) returns (r: Result<seq<Entry>, Error>)
    ensures r == Parse(blob)
  {
    hide ReadEntry, After, Drop, ReadEntries;
    var entries: seq<Entry> := [];
    var pos, done := 0, false;
    DropFrom(blob, 0, 0);
    AfterNone(ReadEntries(blob));
    while !done && pos + |MAGIC| <= |blob| && blob[pos..pos + |MAGIC|] == MAGIC
      invariant pos % 4 == 0
      invariant ReadEntries(blob) == if done then Ok(entries) else After(entries, ReadEntries(Drop(blob, pos)))
      decreases !done, |blob| - pos
    {
      DropFrom(blob, pos, 0);
      var read := ReadEntryAt(blob, pos);
      AfterStep(entries, Drop(blob, pos));
      if read.Err? {
        return Err(read.error);
      }
      var (entry, next) := read.value;
      DropFrom(blob, pos, next - pos);
      entries := entries + [entry];
      pos := next;
      done := entry.name == TRAILER;
    }
    if !done {
      AfterEnd(entries, blob, pos);
    }
    if !EndsWithTrailer(entries) {
      return Err(NoTrailer);
    }
    r := Ok(entries);
  }

  lemma {:induction false} DropFrom(s: seq<byte>, pos: nat, n: nat)
    requires pos <= |s|
    ensures Drop(s, pos) == s[pos..] && Drop(s[pos..], n) == Drop(s, pos + n)
    ensures pos == 0 ==> Drop(s, pos) == s
    ensures pos + |MAGIC| <= |s| && s[pos..pos + |MAGIC|] == MAGIC ==> MAGIC <= Drop(s, pos)
  {
    if pos + |MAGIC| <= |s| && s[pos..pos + |MAGIC|] == MAGIC {
      assert s[pos..][..|MAGIC|] == MAGIC;
    }
  }

  lemma {:induction false} AfterEnd(es: seq<Entry>, s: seq<byte>, pos: nat)
    requires !(pos + |MAGIC| <= |s| && s[pos..pos + |MAGIC|] == MAGIC)
    ensures After(es, ReadEntries(Drop(s, pos))) == Ok(es)
  {
    assert !(MAGIC <= Drop(s, pos));
    assert es + [] == es;
  }

  lemma {:induction false} AfterNone(r: Result<seq<Entry>, Error>)
    ensures After([], r) == r
  {
    if r.Ok? {
      assert [] + r.value == r.value;
    }
  }

  lemma {:induction false} AfterStep(es: seq<Entry>, s: seq<byte>)
    requires MAGIC <= s
    ensures After(es, ReadEntries(s))
         == if ReadEntry(s).Err? then Err(ReadEntry(s).error)
            else
              var (e, next) := ReadEntry(s).value;
              if e.name == TRAILER then Ok(es + [e]) else After(es + [e], ReadEntries(Drop(s, next)))
  {
    hide ReadEntry;
    if ReadEntry(s).Ok? {
      var (e, next) := ReadEntry(s).value;
      var rest := ReadEntries(Drop(s, next));
      if rest.Ok? {
        assert es + ([e] + rest.value) == (es + [e]) + rest.value;
      }
    }
  }

  // ----- writing -----

  /** The header fields as written: the data and name lengths are recomputed. */
  function TrueFields(e: Entry): Fields {
    e.fields[6 := |e.data|][11 := Len(e.name) + 1]
  }

  function HexAll(fields: seq<nat>): seq<byte>
    decreases |fields|
  {
    if fields == [] then [] else Hex(fields[0], 8) + HexAll(fields[1..])
  }

  function Padded(s: seq<byte>): (r: seq<byte>)
    ensures |r| == Align4(|s|)
  {
    s + Zeros(Align4(|s|) - |s|)
  }

  function HeadBytes(e: Entry): seq<byte> {
    MAGIC + HexAll(TrueFields(e)) + (Encode(e.name) + [0])
  }

  function EntryBytes(e: Entry): (r: seq<byte>)
    ensures |r| % 4 == 0
  {
    Padded(Padded(HeadBytes(e)) + e.data)
  }

  /** `_build_cpio` */
  function Build(es: seq<Entry>): seq<byte>
    decreases |es|
  {
    if es == [] then [] else EntryBytes(es[0]) + Build(es[1..])
  }

  /** `while len(out) % 4: out.append(0)` */
  method PadTo4(start: seq<byte>) returns (out: seq<byte>)
    ensures out == Padded(start)
  {
    out := start;
    while |out| % 4 != 0
      invariant |start| <= |out| <= Align4(|start|)
      invariant out == start + Zeros(|out| - |start|)
      decreases Align4(|start|) - |out|
    {
      out := out + [0];
    }
  }

  lemma {:induction false} PaddedFrom(base: seq<byte>, s: seq<byte>)
    requires |base| % 4 == 0
    ensures Padded(base + s) == base + Padded(s)
  {
    AlignFrom(|base|, |s|);
  }

  lemma {:induction false} BuildSnoc(es: seq<Entry>, e: Entry)
    ensures Build(es + [e]) == Build(es) + EntryBytes(e)
    decreases |es|
  {
    hide EntryBytes;
    if es == [] {
      assert (es + [e])[1..] == [];
    } else {
      BuildSnoc(es[1..], e);
      assert (es + [e])[1..] == es[1..] + [e];
    }
  }

  lemma {:induction false} BuildAligned(es: seq<Entry>)
    ensures |Build(es)| % 4 == 0
    decreases |es|
  {
    hide EntryBytes;
    if es != [] {
      BuildAligned(es[1..]);
    }
  }

  /** The loop of `_build_cpio` over one growing buffer. */
  method BuildCpio(entries: seq<Entry>) returns (out: seq<byte>)
    ensures out == Build(entries)
  {
    hide Build, HexAll, Encode, Padded, TrueFields;
    out := [];
    BuildNone();
    for i := 0 to |entries|
      invariant out == Build(entries[..i])
    {
      var e, before := entries[i], out;
      BuildSnoc(entries[..i], e);
      BuildAligned(entries[..i]);
      assert entries[..i + 1] == entries[..i] + [e];
      out := out + (MAGIC + HexAll(TrueFields(e)));
      out := out + (Encode(e.name) + [0]);
      assert out == before + HeadBytes(e);
      PaddedFrom(before, HeadBytes(e));
      out := PadTo4(out);
      assert out + e.data == before + (Padded(HeadBytes(e)) + e.data);
      PaddedFrom(before, Padded(HeadBytes(e)) + e.data);
      out := PadTo4(out + e.data);
    }
    assert entries[..|entries|] == entries;
  }

  lemma {:induction false} BuildNone()
    ensures Build([]) == []
  {}

  // ----- round trip -----

  /** Fields and lengths fit eight hexadecimal digits; the name does not end in NUL. */
  predicate Encodable(e: Entry) {
    && (forall i :: 0 <= i < 13 ==> e.fields[i] < FIELD_LIMIT)
    && |e.data| < FIELD_LIMIT
    && Len(e.name) + 1 < FIELD_LIMIT
    && !EndsInNul(e.name)
  }

  predicate EndsInNul(name: string) {
    name != [] && name[|name| - 1] == '\0'
  }

  function Normal(e: Entry): Entry {
    e.(fields := TrueFields(e))
  }

  lemma {:induction false} HexAllAt(fs: seq<nat>, i: nat)
    requires i < |fs| && forall j :: 0 <= j < |fs| ==> fs[j] < FIELD_LIMIT
    ensures |HexAll(fs)| == 8 * |fs|
    ensures HexAll(fs)[8 * i..8 * i + 8] == Hex(fs[i], 8)
    decreases |fs|
  {
    Pow16Of8();
    HexLen(fs[0], 8);
    hide Hex;
    if |fs| > 1 {
      HexAllAt(fs[1..], if i > 0 then i - 1 else 0);
      if i > 0 {
        assert HexAll(fs)[8 * i..8 * i + 8] == HexAll(fs[1..])[8 * (i - 1)..8 * (i - 1) + 8];
      }
    }
  }

  lemma {:induction false} ReadFieldsFrom(s: seq<byte>, fs: seq<nat>, i: nat)
    requires |fs| == 13 && i <= 13 && forall j :: 0 <= j < 13 ==> FieldAt(s, j) == Some(fs[j])
    ensures ReadFields(s, i) == Some(fs[i..])
    decreases 13 - i
  {
    hide FieldAt;
    if i < 13 {
      ReadFieldsFrom(s, fs, i + 1);
      assert fs[i..] == [fs[i]] + fs[i + 1..];
    }
  }

  lemma {:induction false} ReadHeader(fs: Fields, rest: seq<byte>)
    requires forall j :: 0 <= j < 13 ==> fs[j] < FIELD_LIMIT
    ensures |MAGIC + HexAll(fs)| == HEADER_LEN
    ensures ReadFields(MAGIC + HexAll(fs) + rest, 0) == Some(fs)
  {
    hide HexAll, Hex, FieldAt, ReadFields;
    HexAllAt(fs, 0);
    var s := MAGIC + HexAll(fs) + rest;
    forall j | 0 <= j < 13 ensures FieldAt(s, j) == Some(fs[j]) {
      HeaderField(fs, rest, j);
    }
    ReadFieldsFrom(s, fs, 0);
    assert fs[0..] == fs;
  }

  lemma {:induction false} HeaderField(fs: Fields, rest: seq<byte>, j: nat)
    requires j < 13 && forall j :: 0 <= j < 13 ==> fs[j] < FIELD_LIMIT
    ensures FieldAt(MAGIC + HexAll(fs) + rest, j) == Some(fs[j])
  {
    hide HexAll, Hex, IntOf;
    HexAllAt(fs, j);
    IntOfHex(fs[j], 8);
    var digits := HexAll(fs);
    var s := MAGIC + digits + rest;
    assert s[6 + 8 * j..14 + 8 * j] == digits[8 * j..8 * j + 8];
  }

  lemma {:induction false} NameBytesEnd(name: string)
    requires !EndsInNul(name)
    ensures StripNuls(Encode(name) + [0]) == Encode(name)
  {
    var b := Encode(name);
    assert (b + [0])[..|b|] == b;
    if name != [] {
      var k := |name| - 1;
      assert name == name[..k] + [name[k]];
      EncodeConcat(name[..k], [name[k]]);
      assert Encode([name[k]]) == EncodeChar(name[k]) + [];
      assert b[|b| - 1] == EncodeChar(name[k])[Width(name[k]) - 1] != 0;
    }
  }

  /** Where header, name, data and padding stand in a written entry. */
  lemma {:induction false} EntryParts(h: seq<byte>, name: seq<byte>, data: seq<byte>)
    ensures var w, n := Padded(Padded(h + name) + data), |h| + |name|;
            var at := Align4(n);
            && |w| == Align4(at + |data|)
            && w[..|h|] == h
            && w[|h|..n] == name && w[n..at] == Zeros(at - n)
            && w[at..at + |data|] == data && w[at + |data|..] == Zeros(|w| - at - |data|)
  {
    hide Align4, Zeros, Padded;
    var front, n := Padded(h + name), |h| + |name|;
    var w := Padded(front + data);
    PaddedParts(h, name);
    PaddedParts(front, data);
    assert w[..|h|] == front[..|h|];
    assert w[|h|..n] == front[|h|..n];
    assert w[n..|front|] == front[n..];
  }

  lemma {:induction false} PaddedParts(a: seq<byte>, b: seq<byte>)
    ensures var p := Padded(a + b);
            && |p| == Align4(|a| + |b|)
            && p[..|a|] == a && p[|a|..|a| + |b|] == b
            && p[|a| + |b|..] == Zeros(|p| - |a| - |b|)
  {
    hide Align4, Zeros;
  }

  lemma {:induction false} Layout(h: seq<byte>, name: seq<byte>, data: seq<byte>, rest: seq<byte>)
    ensures var w := Padded(Padded(h + name) + data);
            var s, at := w + rest, Align4(|h| + |name|);
            && |w| == Align4(at + |data|)
            && s == h + s[|h|..]
            && s[|h|..|h| + |name|] == name
            && s[at..at + |data|] == data
  {
    hide Align4, Padded, Zeros;
    EntryParts(h, name, data);
    var w := Padded(Padded(h + name) + data);
    var s := w + rest;
    assert s[..|h|] == w[..|h|];
    assert s[|h|..|h| + |name|] == w[|h|..|h| + |name|];
  }

  lemma {:induction false} ReadEntryIs(s: seq<byte>, fields: Fields, name: string, data: seq<byte>, at: nat)
    requires ReadFields(s, 0) == Some(fields)
    requires fields[11] == Len(name) + 1 && fields[6] == |data| && !EndsInNul(name)
    requires HEADER_LEN + fields[11] <= |s| && s[HEADER_LEN..HEADER_LEN + fields[11]] == Encode(name) + [0]
    requires at == Align4(HEADER_LEN + fields[11]) && at + |data| <= |s| && s[at..at + |data|] == data
    ensures ReadEntry(s) == Ok((Entry(name, fields, data), Align4(at + |data|)))
  {
    hide ReadFields, StripNuls, Encode, Decode, Align4;
    NameBytesEnd(name);
    DecodeOfEncode(name);
  }

  lemma {:induction false} TrueFieldsFit(e: Entry)
    requires Encodable(e)
    ensures forall j :: 0 <= j < 13 ==> TrueFields(e)[j] < FIELD_LIMIT
    ensures TrueFields(e)[6] == |e.data| && TrueFields(e)[11] == Len(e.name) + 1
  {}

  /**
   The bytes of a written entry: the magic number, thirteen fields of eight hexadecimal digits with the true
   lengths among them, the name and its NUL, zeros up to a multiple of four, the data, zeros up to the next.
   */
  lemma {:induction false} EntryLayout(e: Entry)
    requires Encodable(e)
    ensures var b, n := EntryBytes(e), 110 + Len(e.name) + 1;
            var at := (n + 3) / 4 * 4;
            var end := at + |e.data|;
            && |b| == (end + 3) / 4 * 4
            && b[..6] == [0x30, 0x37, 0x30, 0x37, 0x30, 0x31]
            && (forall j :: 0 <= j < 13 ==>
                  b[6 + 8 * j..14 + 8 * j] == Hex(e.fields[6 := |e.data|][11 := Len(e.name) + 1][j], 8))
            && b[110..n] == Encode(e.name) + [0] && b[n..at] == Zeros(at - n)
            && b[at..end] == e.data && b[end..] == Zeros(|b| - end)
  {
    hide HexAll, Encode, Hex, Zeros, Padded, Align4;
    TrueFieldsFit(e);
    var fs := TrueFields(e);
    var h, name, w := MAGIC + HexAll(fs), Encode(e.name) + [0], EntryBytes(e);
    EntryField(fs, [], 0);
    assert |h| == 110;
    EntryParts(h, name, e.data);
    assert w == h + w[110..];
    forall j | 0 <= j < 13 ensures w[6 + 8 * j..14 + 8 * j] == Hex(fs[j], 8) {
      EntryField(fs, w[110..], j);
    }
    AlignIs(|h| + |name|);
    AlignIs(Align4(|h| + |name|) + |e.data|);
    assert w[..6] == h[..6] == MAGIC;
  }

  lemma {:induction false} AlignIs(n: nat)
    ensures Align4(n) == (n + 3) / 4 * 4
  {}

  lemma {:induction false} EntryLen(e: Entry)
    requires Encodable(e)
    ensures |EntryBytes(e)| == ((110 + Len(e.name) + 1 + 3) / 4 * 4 + |e.data| + 3) / 4 * 4
  {
    EntryLayout(e);
  }

  lemma {:induction false} EntryField(fs: Fields, rest: seq<byte>, j: nat)
    requires j < 13 && forall j :: 0 <= j < 13 ==> fs[j] < FIELD_LIMIT
    ensures |HexAll(fs)| == 104
    ensures (MAGIC + HexAll(fs) + rest)[6 + 8 * j..14 + 8 * j] == Hex(fs[j], 8)
  {
    hide HexAll, Hex;
    HexAllAt(fs, j);
    var digits := HexAll(fs);
    assert (MAGIC + digits + rest)[6 + 8 * j..14 + 8 * j] == digits[8 * j..8 * j + 8];
  }

  /** One written entry reads back, with its true lengths, whatever follows. */
  lemma {:induction false} ReadWritten(e: Entry, rest: seq<byte>)
    requires Encodable(e)
    ensures MAGIC <= EntryBytes(e) + rest
    ensures ReadEntry(EntryBytes(e) + rest) == Ok((Normal(e), |EntryBytes(e)|))
  {
    hide HexAll, Encode, ReadFields, TrueFields, Padded, Align4, ReadEntry;
    TrueFieldsFit(e);
    var h, name, s := MAGIC + HexAll(TrueFields(e)), Encode(e.name) + [0], EntryBytes(e) + rest;
    Layout(h, name, e.data, rest);
    ReadHeader(TrueFields(e), s[|h|..]);
    hide Encodable;
    assert s[..|MAGIC|] == h[..|MAGIC|] == MAGIC;
    ReadEntryIs(s, TrueFields(e), e.name, e.data, Align4(|h| + |name|));
  }

  /** Encodable entries, the last one and only the last one the trailer. */
  predicate IsArchive(es: seq<Entry>) {
    && es != [] && es[|es| - 1].name == "TRAILER!!!"
    && (forall i :: 0 <= i < |es| ==> Encodable(es[i]))
    && (forall i :: 0 <= i < |es| - 1 ==> es[i].name != "TRAILER!!!")
  }

  function Normals(es: seq<Entry>): (r: seq<Entry>)
    ensures |r| == |es|
    ensures forall i :: 0 <= i < |es| ==> r[i] == Normal(es[i])
    decreases |es|
  {
    if es == [] then [] else [Normal(es[0])] + Normals(es[1..])
  }

  lemma {:induction false} ReadCons(e: Entry, rest: seq<byte>)
    requires Encodable(e)
    ensures e.name == TRAILER ==> ReadEntries(EntryBytes(e) + rest) == Ok([Normal(e)])
    ensures e.name != TRAILER && ReadEntries(rest).Ok? ==>
              ReadEntries(EntryBytes(e) + rest) == Ok([Normal(e)] + ReadEntries(rest).value)
  {
    hide EntryBytes, Encodable, ReadEntry, TrueFields;
    ReadWritten(e, rest);
    assert Drop(EntryBytes(e) + rest, |EntryBytes(e)|) == rest;
  }

  lemma {:induction false} ReadBuilt(es: seq<Entry>, suffix: seq<byte>)
    requires IsArchive(es)
    ensures ReadEntries(Build(es) + suffix) == Ok(Normals(es))
    decreases |es|
  {
    hide EntryBytes, Encodable, ReadEntries, Normal;
    assert Build(es) + suffix == EntryBytes(es[0]) + (Build(es[1..]) + suffix);
    ReadCons(es[0], Build(es[1..]) + suffix);
    if |es| == 1 {
      assert Normals(es) == [Normal(es[0])];
    } else {
      ReadBuilt(es[1..], suffix);
    }
  }

  /** Building an archive and parsing it, whatever bytes follow it, gives the entries with their true lengths. */
  lemma {:induction false} ParseOfBuild(es: seq<Entry>, suffix: seq<byte>)
    requires IsArchive(es)
    ensures Parse(Build(es) + suffix) == Ok(Normals(es))
  {
    ReadBuilt(es, suffix);
    hide ReadEntries, Build, Encodable;
  }

  // ----- what the parser returns -----

  /** An entry as the parser makes it: thirteen 32-bit fields, the announced data length, no NUL at the name's end. */
  predicate IsParsed(e: Entry) {
    && (forall i :: 0 <= i < 13 ==> e.fields[i] < FIELD_LIMIT)
    && |e.data| == e.fields[6]
    && Len(e.name) <= e.fields[11]
    && !EndsInNul(e.name)
  }

  lemma {:induction false} FieldsFit(s: seq<byte>, i: nat)
    requires i <= 13 && ReadFields(s, i).Some?
    ensures forall j :: 0 <= j < 13 - i ==> ReadFields(s, i).value[j] < FIELD_LIMIT
    decreases 13 - i
  {
    if i < 13 {
      FieldsFit(s, i + 1);
      var text := Slice(s, 6 + 8 * i, 14 + 8 * i);
      IntBound(text);
      Pow16Grows(|text|, 8);
      Pow16Of8();
    }
  }

  lemma {:induction false} Pow16Grows(a: nat, b: nat)
    requires a <= b
    ensures 1 <= Pow16(a) <= Pow16(b)
    decreases b
  {
    if a < b {
      Pow16Grows(a, b - 1);
    } else if a > 0 {
      Pow16Grows(a - 1, a - 1);
    }
  }

  lemma {:induction false} EncodedEnd(name: string)
    requires EndsInNul(name)
    ensures Encode(name) != [] && Encode(name)[|Encode(name)| - 1] == 0
  {
    var k := |name| - 1;
    assert name == name[..k] + [name[k]];
    EncodeConcat(name[..k], [name[k]]);
    assert Encode([name[k]]) == EncodeChar(name[k]) + [];
  }

  lemma {:induction false} NoNulAtEnd(name: string, bytes: seq<byte>)
    requires Encode(name) == StripNuls(bytes)
    ensures !EndsInNul(name) && Len(name) <= |bytes|
  {
    hide Encode;
    if EndsInNul(name) {
      EncodedEnd(name);
      assert false;
    }
  }

  lemma {:induction false} ReadEntryParsed(s: seq<byte>)
    requires ReadEntry(s).Ok?
    ensures IsParsed(ReadEntry(s).value.0)
    ensures Len(ReadEntry(s).value.0.name) + HEADER_LEN <= |s|
  {
    hide ReadFields, Align4, Decode, Encode, StripNuls, EndsInNul;
    FieldsFit(s, 0);
    var e := ReadEntry(s).value.0;
    NoNulAtEnd(e.name, Slice(s, HEADER_LEN, HEADER_LEN + e.fields[11]));
  }

  lemma {:induction false} ReadEntriesParsed(s: seq<byte>)
    requires ReadEntries(s).Ok?
    ensures forall i :: 0 <= i < |ReadEntries(s).value| ==>
              IsParsed(ReadEntries(s).value[i]) && Len(ReadEntries(s).value[i].name) + HEADER_LEN <= |s|
    ensures forall i :: 0 <= i < |ReadEntries(s).value| - 1 ==> ReadEntries(s).value[i].name != TRAILER
    decreases |s|
  {
    hide ReadEntry, IsParsed, Len;
    if MAGIC <= s {
      ReadEntryParsed(s);
      var (e, next) := ReadEntry(s).value;
      if e.name != TRAILER {
        ReadEntriesParsed(Drop(s, next));
      }
    }
  }

  /** Every name, with the NUL written after it, still has a length of eight hexadecimal digits. */
  predicate NamesFit(es: seq<Entry>) {
    forall i :: 0 <= i < |es| ==> Len(es[i].name) + 1 < FIELD_LIMIT
  }

  /** Whatever parses has the shape of an archive; it can be written again exactly when its names fit. */
  lemma {:induction false} ParsedIsArchive(blob: seq<byte>)
    requires Parse(blob).Ok?
    ensures IsArchive(Parse(blob).value) <==> NamesFit(Parse(blob).value)
    ensures |blob| < FIELD_LIMIT ==> NamesFit(Parse(blob).value)
  {
    hide ReadEntries, Len, IsParsed, Encodable;
    ReadEntriesParsed(blob);
    var es := Parse(blob).value;
    forall i | 0 <= i < |es| ensures Encodable(es[i]) <==> Len(es[i].name) + 1 < FIELD_LIMIT {
      ParsedEncodable(es[i]);
    }
  }

  lemma {:induction false} ParsedEncodable(e: Entry)
    requires IsParsed(e)
    ensures Encodable(e) <==> Len(e.name) + 1 < FIELD_LIMIT
  {
    hide Len, EndsInNul;
  }

  /** Parser output is an archive again: parsing, building and parsing once more only corrects the lengths. */
  lemma {:induction false} ParseBuildParse(blob: seq<byte>, suffix: seq<byte>)
    requires Parse(blob).Ok? && NamesFit(Parse(blob).value)
    ensures Parse(Build(Parse(blob).value) + suffix) == Ok(Normals(Parse(blob).value))
  {
    hide Parse, IsArchive, Build, NamesFit;
    ParsedIsArchive(blob);
    ParseOfBuild(Parse(blob).value, suffix);
  }

  /** Correcting the lengths twice is correcting them once. */
  lemma {:induction false} NormalIsStable(e: Entry)
    ensures Normal(Normal(e)) == Normal(e)
  {
    assert TrueFields(Normal(e)) == TrueFields(e);
  }
}
