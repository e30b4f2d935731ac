/**
 UTF-8 as the host tools rely on it: `str::as_bytes`, `from_utf8`, `len_utf8`,
 `is_char_boundary`, and Python's strict `encode` / `decode`. A string is a
 sequence of Unicode scalar values; its bytes are those of section 3 of RFC 3629.
 */
module Utf8 {
  import opened Outcome

  type byte = b: int | 0 <= b < 256

  predicate IsScalar(v: int) {
    0 <= v < 0xD800 || 0xE000 <= v < 0x110000
  }

  predicate IsContinuation(b: byte) {
    0x80 <= b < 0xC0
  }

  function Width(c: char): (w: nat)
    ensures 1 <= w <= 4
  {
    var v := c as int;
    if v < 0x80 then 1 else if v < 0x800 then 2 else if v < 0x10000 then 3 else 4
  }

  function EncodeChar(c: char): (r: seq<byte>)
    ensures |r| == Width(c)
    ensures !IsContinuation(r[0])
    ensures forall i :: 0 < i < |r| ==> IsContinuation(r[i])
  {
    var v := c as int;
    if v < 0x80 then [v]
    else if v < 0x800 then [0xC0 + v / 64, 0x80 + v % 64]
    else if v < 0x10000 then [0xE0 + v / 64 / 64, 0x80 + v / 64 % 64, 0x80 + v % 64]
    else [0xF0 + v / 64 / 64 / 64, 0x80 + v / 64 / 64 % 64, 0x80 + v / 64 % 64, 0x80 + v % 64]
  }

  function Encode(s: string): (r: seq<byte>)
    ensures |s| <= |r|
  {
    if s == [] then [] else EncodeChar(s[0]) + Encode(s[1..])
  }

  /** The length in bytes of a Rust string, `str::len`. */
  function Len(s: string): nat {
    |Encode(s)|
  }

  /** The payload bits of a lead byte under the given length mark. */
  function Lead(b: byte, mark: int): int {
    b - mark
  }

  /** Shift in the six payload bits of a continuation byte. */
  function Append(v: int, b: byte): (r: int)
    requires IsContinuation(b)
    ensures r / 64 == v && 0x80 + r % 64 == b
  {
    v * 64 + (b - 0x80)
  }

  /** A value whose encoding must be exactly these bytes: shortest form only, no surrogates. */
  function Shortest(v: int, b: seq<byte>): (r: Option<char>)
    ensures r.Some? ==> EncodeChar(r.value) == b
  {
    if IsScalar(v) && EncodeChar(v as char) == b then Some(v as char) else None
  }

  /** The scalar value at the front of `b`. */
  function DecodeChar(b: seq<byte>): (r: Option<char>)
    ensures r.Some? ==> Width(r.value) <= |b| && b[..Width(r.value)] == EncodeChar(r.value)
  {
    if b == [] then None
    else if b[0] < 0x80 then Shortest(b[0], b[..1])
    else if 0xC0 <= b[0] < 0xE0 && |b| >= 2 && IsContinuation(b[1]) then
      Shortest(Append(Lead(b[0], 0xC0), b[1]), b[..2])
    else if 0xE0 <= b[0] < 0xF0 && |b| >= 3 && IsContinuation(b[1]) && IsContinuation(b[2]) then
      Shortest(Append(Append(Lead(b[0], 0xE0), b[1]), b[2]), b[..3])
    else if 0xF0 <= b[0] < 0xF8 && |b| >= 4 && IsContinuation(b[1]) && IsContinuation(b[2]) && IsContinuation(b[3]) then
      Shortest(Append(Append(Append(Lead(b[0], 0xF0), b[1]), b[2]), b[3]), b[..4])
    else None
  }

  /** Strict decoding; what it accepts, it inverts. */
  function Decode(b: seq<byte>): (r: Option<string>)
    ensures r.Some? ==> Encode(r.value) == b
  {
    if b == [] then Some([])
    else
      var c :- DecodeChar(b);
      var rest :- Decode(b[Width(c)..]);
      Some([c] + rest)
  }

  lemma {:induction false} DecodeCharOfEncoded(c: char, rest: seq<byte>)
    ensures DecodeChar(EncodeChar(c) + rest) == Some(c)
  {
    var v, b := c as int, EncodeChar(c) + rest;
    assert b[..Width(c)] == EncodeChar(c);
    if v < 0x80 {
    } else if v < 0x800 {
      assert b[0] == 0xC0 + v / 64 && b[1] == 0x80 + v % 64;
    } else if v < 0x10000 {
      assert b[0] == 0xE0 + v / 64 / 64 && b[1] == 0x80 + v / 64 % 64 && b[2] == 0x80 + v % 64;
    } else {
      assert b[0] == 0xF0 + v / 64 / 64 / 64 && b[1] == 0x80 + v / 64 / 64 % 64;
      assert b[2] == 0x80 + v / 64 % 64 && b[3] == 0x80 + v % 64;
    }
  }

  /** Every string survives encoding: with `Decode`'s contract, decoding is exactly the inverse of encoding. */
  lemma {:induction false} DecodeOfEncode(s: string)
    ensures Decode(Encode(s)) == Some(s)
  {
    if s != [] {
      DecodeCharOfEncoded(s[0], Encode(s[1..]));
      assert Encode(s)[Width(s[0])..] == Encode(s[1..]);
      DecodeOfEncode(s[1..]);
      assert [s[0]] + s[1..] == s;
    }
  }

  lemma {:induction false} EncodeConcat(s: string, t: string)
    ensures Encode(s + t) == Encode(s) + Encode(t)
  {
    if s == [] {
      assert s + t == t;
    } else {
      assert (s + t)[1..] == s[1..] + t;
      EncodeConcat(s[1..], t);
    }
  }

  lemma {:induction false} AsciiLen(s: string)
    requires forall i :: 0 <= i < |s| ==> s[i] as int < 0x80
    ensures Len(s) == |s|
  {
    if s != [] {
      AsciiLen(s[1..]);
    }
  }

  /** `str::is_char_boundary` on the bytes of a string. */
  predicate IsBoundary(b: seq<byte>, i: nat) {
    i == 0 || i == |b| || (i < |b| && !IsContinuation(b[i]))
  }

  /** The byte length of the first `k` characters. */
  function PrefixLen(s: string, k: nat): nat
    requires k <= |s|
  {
    Len(s[..k])
  }

  lemma {:induction false} PrefixLenStep(s: string, k: nat)
    requires k < |s|
    ensures PrefixLen(s, k + 1) == PrefixLen(s, k) + Width(s[k])
  {
    assert s[..k + 1] == s[..k] + [s[k]];
    EncodeConcat(s[..k], [s[k]]);
    assert Encode([s[k]]) == EncodeChar(s[k]) + [];
  }

  lemma {:induction false} PrefixLenMonotone(s: string, j: nat, k: nat)
    requires j <= k <= |s|
    ensures PrefixLen(s, j) + (k - j) <= PrefixLen(s, k)
    decreases k - j
  {
    if j < k {
      PrefixLenStep(s, j);
      PrefixLenMonotone(s, j + 1, k);
    }
  }

  /** A prefix of the characters is a prefix of the bytes. */
  lemma {:induction false} PrefixBytes(s: string, k: nat)
    requires k <= |s|
    ensures PrefixLen(s, k) <= Len(s)
    ensures Encode(s)[..PrefixLen(s, k)] == Encode(s[..k])
    ensures Encode(s)[PrefixLen(s, k)..] == Encode(s[k..])
  {
    assert s == s[..k] + s[k..];
    EncodeConcat(s[..k], s[k..]);
  }

  /** The boundaries of a string's bytes are exactly the ends of its character prefixes. */
  lemma {:induction false} BoundaryIffPrefix(s: string, i: nat)
    requires i <= Len(s)
    ensures IsBoundary(Encode(s), i) <==> exists k :: 0 <= k <= |s| && PrefixLen(s, k) == i
  {
    var k := PrefixBelow(s, i);
    PrefixBytes(s, k);
    if PrefixLen(s, k) < i {
      PrefixLenStep(s, k);
      assert Encode(s[k..])[i - PrefixLen(s, k)] == EncodeChar(s[k])[i - PrefixLen(s, k)];
      assert Encode(s)[i] == Encode(s[k..])[i - PrefixLen(s, k)];
      forall j | 0 <= j <= |s| ensures PrefixLen(s, j) != i {
        if j <= k { PrefixLenMonotone(s, j, k); } else { PrefixLenMonotone(s, k + 1, j); }
      }
    } else if i < Len(s) {
      assert s[..|s|] == s;
      assert Encode(s)[i] == Encode(s[k..])[0] == EncodeChar(s[k])[0];
    }
  }

  /** The last character prefix that ends at or before byte `i`. */
  lemma {:induction false} PrefixBelow(s: string, i: nat) returns (k: nat)
    requires i <= Len(s)
    ensures k <= |s| && PrefixLen(s, k) <= i
    ensures k == |s| || i < PrefixLen(s, k + 1)
  {
    k := 0;
    while k < |s| && PrefixLen(s, k + 1) <= i
      invariant k <= |s| && PrefixLen(s, k) <= i
    {
      k := k + 1;
    }
  }

  /** Rounding an offset down to a character boundary. */
  function Floor(b: seq<byte>, i: nat): (r: nat)
    ensures r <= i && IsBoundary(b, r)
    ensures forall j :: r < j <= i ==> !IsBoundary(b, j)
  {
    if IsBoundary(b, i) then i else Floor(b, i - 1)
  }

  /** The loop `while mid > 0 && !s.is_char_boundary(mid) { mid -= 1 }`. */
  method RoundDown(b: seq<byte>, i: nat) returns (mid: nat)
    ensures mid == Floor(b, i)
  {
    mid := i;
    while mid > 0 && !IsBoundary(b, mid)
      invariant mid <= i && Floor(b, mid) == Floor(b, i)
    {
      mid := mid - 1;
    }
  }

  /** How many whole characters end at or before byte `i`. */
  function CharIndex(s: string, i: nat): (k: nat)
    ensures k <= |s|
  {
    if s == [] || i < Width(s[0]) then 0 else 1 + CharIndex(s[1..], i - Width(s[0]))
  }

  lemma {:induction false} PrefixLenCons(s: string, k: nat)
    requires k < |s|
    ensures PrefixLen(s, k + 1) == Width(s[0]) + PrefixLen(s[1..], k)
  {
    assert s[..k + 1] == [s[0]] + s[1..][..k];
    assert s[..k + 1][1..] == s[1..][..k];
  }

  lemma {:induction false} PrefixLenZero(s: string)
    ensures PrefixLen(s, 0) == 0
  {}

  lemma {:induction false} CharIndexIs(s: string, i: nat)
    ensures PrefixLen(s, CharIndex(s, i)) <= i
    ensures CharIndex(s, i) < |s| ==> i < PrefixLen(s, CharIndex(s, i) + 1)
  {
    PrefixLenZero(s);
    hide Len;
    if s != [] {
      PrefixLenCons(s, 0);
      PrefixLenZero(s[1..]);
      if i >= Width(s[0]) {
        var k := CharIndex(s[1..], i - Width(s[0]));
        CharIndexIs(s[1..], i - Width(s[0]));
        PrefixLenCons(s, k);
        if k + 1 < |s| {
          PrefixLenCons(s, k + 1);
        }
      }
    }
  }

  /** Rounding down keeps exactly the whole characters. */
  lemma {:induction false} FloorIsPrefix(s: string, i: nat)
    requires i <= Len(s)
    ensures Floor(Encode(s), i) == PrefixLen(s, CharIndex(s, i))
  {
    hide Encode, IsBoundary, CharIndex;
    var k, r := CharIndex(s, i), Floor(Encode(s), i);
    CharIndexIs(s, i);
    PrefixBytes(s, k);
    BoundaryIffPrefix(s, PrefixLen(s, k));
    BoundaryIffPrefix(s, r);
    var j :| 0 <= j <= |s| && PrefixLen(s, j) == r;
    assert IsBoundary(Encode(s), PrefixLen(s, k));
    if k < j {
      PrefixLenMonotone(s, k + 1, j);
    } else {
      PrefixLenMonotone(s, j, k);
    }
  }
}
