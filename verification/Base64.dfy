/**
 The standard Base64 alphabet with canonical padding, section 4 of RFC 4648, as the
 `STANDARD` engine encodes and decodes it: padding is required and unused bits must be zero.
 */
module Base64 {
  import opened Outcome
  import opened Utf8
  import Text

  function Symbol(i: nat): (c: char)
    requires i < 64
    ensures c != '='
  {
    if i < 26 then (i + 'A' as int) as char
    else if i < 52 then (i - 26 + 'a' as int) as char
    else if i < 62 then (i - 52 + '0' as int) as char
    else if i == 62 then '+' else '/'
  }

  function Index(c: char): (r: Option<nat>)
    ensures r.Some? ==> r.value < 64 && Symbol(r.value) == c
  {
    if 'A' <= c <= 'Z' then Some(c as int - 'A' as int)
    else if 'a' <= c <= 'z' then Some(c as int - 'a' as int + 26)
    else if '0' <= c <= '9' then Some(c as int - '0' as int + 52)
    else if c == '+' then Some(62) else if c == '/' then Some(63) else None
  }

  lemma {:induction false} IndexOfSymbol(i: nat)
    requires i < 64
    ensures Index(Symbol(i)) == Some(i)
  {}

  /** Two bit fields packed in one number come apart again. */
  function Pack(hi: nat, lo: nat, base: nat): (r: nat)
    requires lo < base && base in {4, 16, 64}
    ensures r / base == hi && r % base == lo
  {
    if base == 4 then hi * 4 + lo else if base == 16 then hi * 16 + lo else hi * 64 + lo
  }

  /** One to three bytes as four symbols, padded. */
  function EncodeGroup(b: seq<byte>): (t: string)
    requires 1 <= |b| <= 3
    ensures |t| == 4
  {
    var s0 := Symbol(b[0] / 4);
    if |b| == 1 then [s0, Symbol(Pack(b[0] % 4, 0, 16)), '=', '=']
    else
      var s1 := Symbol(Pack(b[0] % 4, b[1] / 16, 16));
      if |b| == 2 then [s0, s1, Symbol(Pack(b[1] % 16, 0, 4)), '=']
      else [s0, s1, Symbol(Pack(b[1] % 16, b[2] / 64, 4)), Symbol(b[2] % 64)]
  }

  function Encode(b: seq<byte>): string {
    if b == [] then []
    else if |b| <= 3 then EncodeGroup(b)
    else EncodeGroup(b[..3]) + Encode(b[3..])
  }

  lemma {:induction false} EncodedLen(b: seq<byte>)
    ensures |Encode(b)| == (|b| + 2) / 3 * 4
  {
    hide EncodeGroup;
    if |b| > 3 {
      EncodedLen(b[3..]);
    }
  }

  /** A group of four: full, or, when it is the last one, padded with no unused bits set. */
  function DecodeGroup(g: string, last: bool): (r: Option<seq<byte>>)
    requires |g| == 4
    ensures r.Some? ==> 1 <= |r.value| <= 3 && EncodeGroup(r.value) == g
    ensures r.Some? && !last ==> |r.value| == 3
  {
    var i0 :- Index(g[0]);
    var i1 :- Index(g[1]);
    var b0 := Pack(i0, i1 / 16, 4);
    if g[2] == '=' && g[3] == '=' then
      if last && i1 % 16 == 0 then Some([b0]) else None
    else
      var i2 :- Index(g[2]);
      var b1 := Pack(i1 % 16, i2 / 4, 16);
      if g[3] == '=' then
        if last && i2 % 4 == 0 then Some([b0, b1]) else None
      else
        var i3 :- Index(g[3]);
        Some([b0, b1, Pack(i2 % 4, i3, 64)])
  }

  /** Strict decoding; what it accepts, it inverts. */
  function Decode(t: string): (r: Option<seq<byte>>)
    ensures r.Some? ==> Encode(r.value) == t
  {
    if t == [] then Some([])
    else if |t| < 4 then None
    else if |t| == 4 then DecodeGroup(t, true)
    else
      var head :- DecodeGroup(t[..4], false);
      var rest :- Decode(t[4..]);
      EncodeAppend(head, rest);
      Some(head + rest)
  }

  lemma {:induction false} EncodeAppend(head: seq<byte>, rest: seq<byte>)
    requires |head| == 3
    ensures Encode(head + rest) == EncodeGroup(head) + Encode(rest)
  {
    if rest == [] {
      assert head + rest == head;
    } else {
      assert (head + rest)[..3] == head && (head + rest)[3..] == rest;
    }
  }

  lemma {:induction false} DecodeGroupOfEncoded(b: seq<byte>, last: bool)
    requires 1 <= |b| <= 3 && (last || |b| == 3)
    ensures DecodeGroup(EncodeGroup(b), last) == Some(b)
  {
    hide Symbol, Index, Pack;
    forall i: nat | i < 64 ensures Index(Symbol(i)) == Some(i) {
      IndexOfSymbol(i);
    }
    assert b == if |b| == 1 then [b[0]] else if |b| == 2 then [b[0], b[1]] else [b[0], b[1], b[2]];
  }

  /** Every payload survives encoding: with `Decode`'s contract, decoding is exactly the inverse of encoding. */
  lemma {:induction false} DecodeOfEncode(b: seq<byte>)
    ensures Decode(Encode(b)) == Some(b)
  {
    if b == [] {
    } else if |b| <= 3 {
      DecodeGroupOfEncoded(b, true);
    } else {
      var t := Encode(b);
      assert t[..4] == EncodeGroup(b[..3]) && t[4..] == Encode(b[3..]);
      DecodeGroupOfEncoded(b[..3], false);
      DecodeOfEncode(b[3..]);
      assert b[..3] + b[3..] == b;
    }
  }

  /** Encoding is a homomorphism at every multiple of three bytes. */
  lemma {:induction false} EncodeConcat(a: seq<byte>, b: seq<byte>)
    requires |a| % 3 == 0
    ensures Encode(a + b) == Encode(a) + Encode(b)
  {
    hide EncodeGroup;
    if a == [] {
      assert a + b == b;
    } else {
      assert a == a[..3] + a[3..] && a + b == a[..3] + (a[3..] + b);
      EncodeAppend(a[..3], a[3..]);
      EncodeAppend(a[..3], a[3..] + b);
      EncodeConcat(a[3..], b);
    }
  }

  /** Cutting the text at a multiple of four cuts the bytes at the matching multiple of three. */
  lemma {:induction false} CutText(b: seq<byte>, k: nat)
    requires 4 * k < |Encode(b)|
    ensures 3 * k <= |b|
    ensures Encode(b)[..4 * k] == Encode(b[..3 * k])
    ensures Encode(b)[4 * k..] == Encode(b[3 * k..])
  {
    hide EncodeGroup, Encode;
    EncodedLen(b);
    EncodedLen(b[..3 * k]);
    assert b == b[..3 * k] + b[3 * k..];
    EncodeConcat(b[..3 * k], b[3 * k..]);
  }

  predicate IsSymbol(c: char) {
    c == '=' || Index(c).Some?
  }

  lemma {:induction false} GroupSymbols(b: seq<byte>)
    requires 1 <= |b| <= 3
    ensures forall i :: 0 <= i < 4 ==> IsSymbol(EncodeGroup(b)[i])
  {
    hide Symbol, Index, Pack;
    forall i: nat | i < 64 ensures IsSymbol(Symbol(i)) {
      IndexOfSymbol(i);
    }
  }

  lemma {:induction false} EncodedSymbols(b: seq<byte>)
    ensures forall i :: 0 <= i < |Encode(b)| ==> IsSymbol(Encode(b)[i])
  {
    if b != [] {
      GroupSymbols(if |b| <= 3 then b else b[..3]);
    }
    hide EncodeGroup, IsSymbol;
    if |b| > 3 {
      EncodedSymbols(b[3..]);
    }
  }

  /** Base64 text is one word: it can stand as a value in a line of white-space separated fields. */
  lemma {:induction false} EncodedIsWord(b: seq<byte>)
    ensures Text.NoWhitespace(Encode(b))
  {
    EncodedSymbols(b);
  }
}
