/**
 The telemetry binary search (apps/cohsh/src/lib.rs) on text of any characters. Rounding the midpoint down to a
 character boundary can bring it back to the lower bound, and then the search goes round for ever; this module
 says exactly when, and that a search which does end is right. Every split ends with a search on a text that fits one
 record, and for those texts the condition is one on the text.
 */
module TelemetrySearch {
  import opened Outcome
  import opened Telemetry
  import Utf8

  /** The two variables of the loop, in bytes. */
  datatype Bounds = Bounds(low: nat, high: nat)

  predicate Done(b: Bounds) {
    b.low >= b.high
  }

  /** One turn of the loop. */
  function Turn(text: string, num: nat, mime: string, b: Bounds): Bounds {
    var mid := Utf8.Floor(Utf8.Encode(text), (b.low + b.high + 1) / 2);
    if Fits(text, num, mime, Utf8.CharIndex(text, mid)) then Bounds(mid, b.high)
    else Bounds(b.low, if mid == 0 then 0 else mid - 1)
  }

  /** What every turn keeps: `low` ends a prefix that fits (or is 0), and no prefix that ends above `high` fits. */
  predicate Sound(text: string, num: nat, mime: string, b: Bounds) {
    var k := Utf8.CharIndex(text, b.low);
    && b.low <= b.high <= Utf8.Len(text)
    && Utf8.PrefixLen(text, k) == b.low
    && (k == 0 || Fits(text, num, mime, k))
    && forall j :: 0 <= j <= |text| && Utf8.PrefixLen(text, j) > b.high ==> j > 0 && !Fits(text, num, mime, j)
  }

  /** Open bounds that the next character is too wide for: fewer than twice its width, less one, bytes apart. */
  predicate Stuck(text: string, num: nat, mime: string, b: Bounds) {
    var k := Utf8.CharIndex(text, b.low);
    !Done(b) && Fits(text, num, mime, k) && k < |text| && b.high - b.low + 1 < 2 * Utf8.Width(text[k])
  }

  lemma {:induction false} CharIndexOfPrefix(text: string, k: nat)
    requires k <= |text|
    ensures Utf8.CharIndex(text, Utf8.PrefixLen(text, k)) == k
  {
    hide Utf8.Len, Utf8.CharIndex;
    var i := Utf8.PrefixLen(text, k);
    var j := Utf8.CharIndex(text, i);
    Utf8.CharIndexIs(text, i);
    if j < k {
      Utf8.PrefixLenMonotone(text, j + 1, k);
    } else {
      Utf8.PrefixLenMonotone(text, k, j);
    }
  }

  /** Where the rounded midpoint lands, counted in characters: at `low` exactly when the next one is too wide. */
  lemma {:induction false} Midpoint(text: string, b: Bounds)
    requires b.low < b.high <= Utf8.Len(text) && Utf8.PrefixLen(text, Utf8.CharIndex(text, b.low)) == b.low
    ensures var k, m := Utf8.CharIndex(text, b.low), Utf8.CharIndex(text, (b.low + b.high + 1) / 2);
            && k <= m && k < |text|
            && Utf8.Floor(Utf8.Encode(text), (b.low + b.high + 1) / 2) == Utf8.PrefixLen(text, m) <= b.high
            && (m == k <==> b.high - b.low + 1 < 2 * Utf8.Width(text[k]))
  {
    hide Utf8.Encode, Utf8.CharIndex, Utf8.Floor;
    var mid := (b.low + b.high + 1) / 2;
    var k, m := Utf8.CharIndex(text, b.low), Utf8.CharIndex(text, mid);
    assert text[..|text|] == text;
    Utf8.FloorIsPrefix(text, mid);
    Utf8.CharIndexIs(text, mid);
    Utf8.PrefixLenStep(text, k);
    if m < k {
      Utf8.PrefixLenMonotone(text, m + 1, k);
    } else if k < m {
      Utf8.PrefixLenMonotone(text, k + 1, m);
    }
  }

  /** A turn keeps the bounds sound, and narrows them unless they are stuck; stuck bounds do not move. */
  lemma {:induction false} TurnEffect(text: string, num: nat, mime: string, b: Bounds)
    requires Sound(text, num, mime, b) && !Done(b)
    ensures var b' := Turn(text, num, mime, b);
            && Sound(text, num, mime, b')
            && (Stuck(text, num, mime, b) ==> b' == b)
            && (!Stuck(text, num, mime, b) ==> b'.high - b'.low < b.high - b.low)
  {
    hide Utf8.Len, Utf8.CharIndex, Utf8.Floor, Fits;
    Midpoint(text, b);
    var k, m := Utf8.CharIndex(text, b.low), Utf8.CharIndex(text, (b.low + b.high + 1) / 2);
    var mid := Utf8.PrefixLen(text, m);
    CharIndexOfPrefix(text, m);
    if k < m {
      Utf8.PrefixLenMonotone(text, k, m);
    }
    if !Fits(text, num, mime, m) {
      forall j | 0 <= j <= |text| && Utf8.PrefixLen(text, j) > (if mid == 0 then 0 else mid - 1)
        ensures j > 0 && !Fits(text, num, mime, j)
      {
        if j < m {
          Utf8.PrefixLenMonotone(text, j, m);
        } else if Fits(text, num, mime, j) {
          FitsDownward(text, num, mime, m, j);
        }
        Utf8.PrefixLenZero(text);
      }
    }
  }

  /** The bounds after at most `n` turns; the loop stops by itself when they meet. */
  function After(text: string, num: nat, mime: string, b: Bounds, n: nat): Bounds
    decreases n
  {
    if n == 0 || Done(b) then b else After(text, num, mime, Turn(text, num, mime, b), n - 1)
  }

  ghost predicate Ends(text: string, num: nat, mime: string, b: Bounds) {
    exists n: nat :: Done(After(text, num, mime, b, n))
  }

  lemma {:induction false} AfterIsSound(text: string, num: nat, mime: string, b: Bounds, n: nat)
    requires Sound(text, num, mime, b)
    ensures Sound(text, num, mime, After(text, num, mime, b, n))
    decreases n
  {
    hide Sound, Turn, Stuck;
    if n > 0 && !Done(b) {
      TurnEffect(text, num, mime, b);
      AfterIsSound(text, num, mime, Turn(text, num, mime, b), n - 1);
    }
  }

  lemma {:induction false} AfterStep(text: string, num: nat, mime: string, b: Bounds, n: nat)
    ensures n == 0 ==> After(text, num, mime, b, n) == b
    ensures n > 0 && !Done(b) ==> After(text, num, mime, b, n) == After(text, num, mime, Turn(text, num, mime, b), n - 1)
  {
    hide Turn;
  }

  lemma {:induction false} StuckIsOpen(text: string, num: nat, mime: string, b: Bounds)
    requires Stuck(text, num, mime, b)
    ensures !Done(b)
  {}

  lemma {:induction false} StuckStays(text: string, num: nat, mime: string, b: Bounds, n: nat)
    requires Sound(text, num, mime, b) && Stuck(text, num, mime, b)
    ensures After(text, num, mime, b, n) == b
    decreases n
  {
    hide Sound, Turn, Stuck, After;
    StuckIsOpen(text, num, mime, b);
    AfterStep(text, num, mime, b, n);
    if n > 0 {
      TurnEffect(text, num, mime, b);
      StuckStays(text, num, mime, b, n - 1);
    }
  }

  lemma {:induction false} AfterAfter(text: string, num: nat, mime: string, b: Bounds, m: nat, n: nat)
    ensures After(text, num, mime, After(text, num, mime, b, m), n) == After(text, num, mime, b, m + n)
    decreases m
  {
    hide Turn;
    if m > 0 && !Done(b) {
      AfterAfter(text, num, mime, Turn(text, num, mime, b), m - 1, n);
    }
  }

  /** Never stuck: the search is over after as many turns as the bounds are apart. */
  lemma {:induction false} FreeSearchEnds(text: string, num: nat, mime: string, b: Bounds)
    requires Sound(text, num, mime, b)
    requires forall n: nat :: n < b.high - b.low ==> !Stuck(text, num, mime, After(text, num, mime, b, n))
    ensures Done(After(text, num, mime, b, b.high - b.low))
    decreases b.high - b.low
  {
    hide Turn, Stuck, Fits, Utf8.Len, Utf8.CharIndex;
    if !Done(b) {
      assert !Stuck(text, num, mime, After(text, num, mime, b, 0));
      TurnEffect(text, num, mime, b);
      var b' := Turn(text, num, mime, b);
      forall n: nat | n < b'.high - b'.low ensures !Stuck(text, num, mime, After(text, num, mime, b', n)) {
        assert After(text, num, mime, b, n + 1) == After(text, num, mime, b', n);
      }
      FreeSearchEnds(text, num, mime, b');
      var gap, gap' := b.high - b.low, b'.high - b'.low;
      AfterAfter(text, num, mime, b', gap', gap - 1 - gap');
    }
  }

  /**
   The search ends exactly when its first turns, as many as the bounds are bytes apart, never meet bounds the next
   character is too wide for.
   */
  lemma {:induction false} EndsIffNeverStuck(text: string, num: nat, mime: string, b: Bounds)
    requires Sound(text, num, mime, b)
    ensures Ends(text, num, mime, b)
            <==> forall n: nat :: n < b.high - b.low ==> !Stuck(text, num, mime, After(text, num, mime, b, n))
    ensures Ends(text, num, mime, b) ==> forall n: nat :: !Stuck(text, num, mime, After(text, num, mime, b, n))
  {
    hide Sound, Turn, After, Fits, Stuck;
    SoundGap(text, num, mime, b);
    var gap: nat := b.high - b.low;
    if forall n: nat :: n < gap ==> !Stuck(text, num, mime, After(text, num, mime, b, n)) {
      FreeSearchEnds(text, num, mime, b);
      assert Done(After(text, num, mime, b, gap));
    } else {
      var n: nat :| n < gap && Stuck(text, num, mime, After(text, num, mime, b, n));
      StuckNeverEnds(text, num, mime, b, n);
    }
    forall n: nat | Ends(text, num, mime, b)
      ensures !Stuck(text, num, mime, After(text, num, mime, b, n))
    {
      if Stuck(text, num, mime, After(text, num, mime, b, n)) {
        StuckNeverEnds(text, num, mime, b, n);
      }
    }
  }

  lemma {:induction false} StuckNeverEnds(text: string, num: nat, mime: string, b: Bounds, n: nat)
    requires Sound(text, num, mime, b) && Stuck(text, num, mime, After(text, num, mime, b, n))
    ensures !Ends(text, num, mime, b)
  {
    hide Sound, Turn, After, Fits;
    AfterIsSound(text, num, mime, b, n);
    forall m: nat ensures !Done(After(text, num, mime, b, m)) {
      StuckStays(text, num, mime, After(text, num, mime, b, n), m);
      AfterAfter(text, num, mime, b, n, m);
      AfterAfter(text, num, mime, b, m, n);
      DoneStays(text, num, mime, After(text, num, mime, b, m), n);
    }
  }

  lemma {:induction false} SoundGap(text: string, num: nat, mime: string, b: Bounds)
    requires Sound(text, num, mime, b)
    ensures b.low <= b.high
  {}

  lemma {:induction false} DoneStays(text: string, num: nat, mime: string, b: Bounds, n: nat)
    ensures Done(b) ==> After(text, num, mime, b, n) == b
  {}

  lemma {:induction false} StartIsSound(text: string, num: nat, mime: string)
    ensures Sound(text, num, mime, Bounds(0, Utf8.Len(text)))
  {
    hide Fits, Utf8.Encode;
    assert Utf8.CharIndex(text, 0) == 0;
    Utf8.PrefixLenZero(text);
    forall j | 0 <= j <= |text| ensures Utf8.PrefixLen(text, j) <= Utf8.Len(text) {
      Utf8.PrefixBytes(text, j);
    }
  }

  /** A search that ends returns the longest prefix that fits, on any text. */
  lemma {:induction false} EndIsRight(text: string, num: nat, mime: string, n: nat)
    requires Done(After(text, num, mime, Bounds(0, Utf8.Len(text)), n))
    ensures var low := After(text, num, mime, Bounds(0, Utf8.Len(text)), n).low;
            low == Utf8.PrefixLen(text, LargestFit(text, num, mime, |text|))
  {
    hide Turn, After, Fits, Utf8.Encode, Utf8.CharIndex, LargestFit;
    var start := Bounds(0, Utf8.Len(text));
    StartIsSound(text, num, mime);
    AfterIsSound(text, num, mime, start, n);
    var b := After(text, num, mime, start, n);
    var k := Utf8.CharIndex(text, b.low);
    if k < |text| {
      Utf8.PrefixLenStep(text, k);
    }
    LargestFitIs(text, num, mime, |text|, k);
  }

  /** Single-byte text never gets stuck. */
  lemma {:induction false} AsciiEnds(text: string, num: nat, mime: string)
    requires IsAscii(text)
    ensures Ends(text, num, mime, Bounds(0, Utf8.Len(text)))
  {
    hide Turn, After, Fits, Utf8.Encode, Utf8.CharIndex, Sound;
    StartIsSound(text, num, mime);
    EndsIffNeverStuck(text, num, mime, Bounds(0, Utf8.Len(text)));
  }

  /** Every wide character before the cut has room after it to be stepped over, and the cut itself is narrow. */
  predicate Roomy(text: string, num: nat, mime: string) {
    var cut := LargestFit(text, num, mime, |text|);
    && (cut < |text| ==> Utf8.Width(text[cut]) == 1)
    && forall k :: 0 <= k < cut ==> Utf8.PrefixLen(text, cut) + 1 >= Utf8.PrefixLen(text, k) + 2 * Utf8.Width(text[k])
  }

  lemma {:induction false} LargestFitBounds(text: string, num: nat, mime: string, j: nat, k: nat)
    requires j <= k <= |text| && Fits(text, num, mime, j)
    ensures j <= LargestFit(text, num, mime, k)
    decreases k
  {
    hide Fits;
    if j < k {
      LargestFitBounds(text, num, mime, j, k - 1);
    }
  }

  /** Room at the cut is enough for the search to end, whatever the text. */
  lemma {:induction false} RoomyEnds(text: string, num: nat, mime: string)
    requires Roomy(text, num, mime)
    ensures Ends(text, num, mime, Bounds(0, Utf8.Len(text)))
  {
    hide Turn, After, Fits, Utf8.Encode, Utf8.CharIndex, Utf8.Width, LargestFit, Ends;
    var start := Bounds(0, Utf8.Len(text));
    StartIsSound(text, num, mime);
    EndsIffNeverStuck(text, num, mime, start);
    var cut := LargestFit(text, num, mime, |text|);
    LargestFits(text, num, mime, |text|);
    forall n: nat ensures !Stuck(text, num, mime, After(text, num, mime, start, n)) {
      AfterIsSound(text, num, mime, start, n);
      var b := After(text, num, mime, start, n);
      var k := Utf8.CharIndex(text, b.low);
      assert Utf8.PrefixLen(text, cut) <= b.high;
      if Stuck(text, num, mime, b) {
        LargestFitBounds(text, num, mime, k, |text|);
      }
    }
  }

  // ----- texts that fit one record: the exact condition on the text -----

  /** A character too wide for the bytes from it to the end of a text that fits. */
  predicate Blocks(text: string, k: nat)
    requires k < |text|
  {
    Utf8.Len(text) + 1 < Utf8.PrefixLen(text, k) + 2 * Utf8.Width(text[k])
  }

  /** The bounds of a search that has not got past character `k`. */
  predicate Behind(text: string, k: nat, b: Bounds)
    requires k < |text|
  {
    && b.high == Utf8.Len(text) && b.low <= Utf8.PrefixLen(text, k) < b.high
    && Utf8.PrefixLen(text, Utf8.CharIndex(text, b.low)) == b.low
  }

  /** No turn jumps over a blocking character: the midpoint of anything before it and the end is not past it. */
  lemma {:induction false} BehindStays(text: string, num: nat, mime: string, k: nat, b: Bounds)
    requires k < |text| && Blocks(text, k) && Fits(text, num, mime, |text|) && Behind(text, k, b)
    ensures Behind(text, k, Turn(text, num, mime, b))
  {
    hide Utf8.Encode, Utf8.CharIndex, Utf8.Floor, Fits, Utf8.Width;
    Midpoint(text, b);
    var mid := (b.low + b.high + 1) / 2;
    var m := Utf8.CharIndex(text, mid);
    CharIndexOfPrefix(text, m);
    FitsDownward(text, num, mime, m, |text|);
    Utf8.CharIndexIs(text, mid);
    Utf8.PrefixLenStep(text, k);
    if m > k {
      Utf8.PrefixLenMonotone(text, k + 1, m);
    } else {
      Utf8.PrefixLenMonotone(text, m, k);
    }
  }

  lemma {:induction false} BehindForever(text: string, num: nat, mime: string, k: nat, b: Bounds, n: nat)
    requires k < |text| && Blocks(text, k) && Fits(text, num, mime, |text|) && Behind(text, k, b)
    ensures Behind(text, k, After(text, num, mime, b, n))
    decreases n
  {
    hide Turn, Fits, Behind, Blocks;
    if n > 0 && !Done(b) {
      BehindStays(text, num, mime, k, b);
      BehindForever(text, num, mime, k, Turn(text, num, mime, b), n - 1);
    }
  }

  lemma {:induction false} BlockedNeverEnds(text: string, num: nat, mime: string, k: nat)
    requires k < |text| && Blocks(text, k) && Fits(text, num, mime, |text|)
    ensures !Ends(text, num, mime, Bounds(0, Utf8.Len(text)))
  {
    hide Turn, After, Fits, Utf8.Encode, Utf8.CharIndex, Utf8.Width;
    var start := Bounds(0, Utf8.Len(text));
    StartIsSound(text, num, mime);
    Utf8.PrefixLenMonotone(text, k, |text|);
    assert text[..|text|] == text;
    forall n: nat ensures !Done(After(text, num, mime, start, n)) {
      BehindForever(text, num, mime, k, start, n);
    }
  }

  /** When everything fits, the cut is the end of the text. */
  lemma {:induction false} FittingCut(text: string, num: nat, mime: string)
    requires Fits(text, num, mime, |text|)
    ensures LargestFit(text, num, mime, |text|) == |text| && Utf8.PrefixLen(text, |text|) == Utf8.Len(text)
  {
    hide Fits, Utf8.Encode;
    assert text[..|text|] == text;
  }

  /**
   On a text that fits one record, the search ends exactly when every character has room behind it: the bytes from
   it to the end of the text, and one more, are at least twice its width.
   */
  lemma {:induction false} FittingEndsIffRoomy(text: string, num: nat, mime: string)
    requires Fits(text, num, mime, |text|)
    ensures Ends(text, num, mime, Bounds(0, Utf8.Len(text))) <==> Roomy(text, num, mime)
    ensures Roomy(text, num, mime) <==> forall k :: 0 <= k < |text| ==> !Blocks(text, k)
  {
    hide Fits, Ends, Utf8.Len, LargestFit, Utf8.Width;
    FittingCut(text, num, mime);
    if Roomy(text, num, mime) {
      RoomyEnds(text, num, mime);
    } else {
      var k :| 0 <= k < |text|
               && !(Utf8.PrefixLen(text, |text|) + 1 >= Utf8.PrefixLen(text, k) + 2 * Utf8.Width(text[k]));
      assert Blocks(text, k);
      BlockedNeverEnds(text, num, mime, k);
    }
  }

  /** Every text that fits one record and ends in a multi-byte character makes the search run for ever. */
  lemma {:induction false} WideEndingNeverEnds(text: string, num: nat, mime: string)
    requires text != [] && Utf8.Width(text[|text| - 1]) > 1 && Fits(text, num, mime, |text|)
    ensures !Ends(text, num, mime, Bounds(0, Utf8.Len(text)))
  {
    hide Fits, Ends, Utf8.Len, LargestFit, Utf8.Width;
    FittingCut(text, num, mime);
    Utf8.PrefixLenStep(text, |text| - 1);
    BlockedNeverEnds(text, num, mime, |text| - 1);
  }

  // ----- texts that do not fit -----

  /** The upper bound is the end of the text, or one byte short of the end of a prefix that does not fit. */
  predicate HighIs(text: string, num: nat, mime: string, high: nat) {
    || high == Utf8.Len(text)
    || (exists m :: 0 <= m <= |text| && high + 1 == Utf8.PrefixLen(text, m) && !Fits(text, num, mime, m))
    || (high == 0 && !Fits(text, num, mime, 0))
  }

  lemma {:induction false} TurnHigh(text: string, num: nat, mime: string, b: Bounds)
    requires Sound(text, num, mime, b) && !Done(b) && HighIs(text, num, mime, b.high)
    ensures HighIs(text, num, mime, Turn(text, num, mime, b).high)
  {
    hide Utf8.Len, Utf8.CharIndex, Utf8.Floor, Fits;
    Midpoint(text, b);
    var m := Utf8.CharIndex(text, (b.low + b.high + 1) / 2);
    CharIndexOfPrefix(text, m);
    Utf8.PrefixLenZero(text);
    Utf8.PrefixLenMonotone(text, 0, m);
  }

  lemma {:induction false} AfterHigh(text: string, num: nat, mime: string, b: Bounds, n: nat)
    requires Sound(text, num, mime, b) && HighIs(text, num, mime, b.high)
    ensures HighIs(text, num, mime, After(text, num, mime, b, n).high)
    decreases n
  {
    hide Sound, Turn, HighIs, After, Stuck;
    AfterStep(text, num, mime, b, n);
    DoneStays(text, num, mime, b, n);
    if n > 0 && !Done(b) {
      TurnEffect(text, num, mime, b);
      TurnHigh(text, num, mime, b);
      AfterHigh(text, num, mime, Turn(text, num, mime, b), n - 1);
    }
  }

  /** The character after the longest prefix that fits, or the last one when everything fits, is a single byte. */
  predicate NarrowAtCut(text: string, num: nat, mime: string)
    requires text != []
  {
    var k := LargestFit(text, num, mime, |text|);
    Utf8.Width(text[if k < |text| then k else |text| - 1]) == 1
  }

  /** A search can only end where the text is narrow: a wide character at the cut makes it run for ever. */
  lemma {:induction false} EndsNeedsNarrow(text: string, num: nat, mime: string)
    requires text != [] && Fits(text, num, mime, 0) && Ends(text, num, mime, Bounds(0, Utf8.Len(text)))
    ensures NarrowAtCut(text, num, mime)
  {
    hide Turn, After, Fits, Utf8.Encode, Utf8.CharIndex, Utf8.Width, LargestFit;
    var start := Bounds(0, Utf8.Len(text));
    var k := LargestFit(text, num, mime, |text|);
    LargestFits(text, num, mime, |text|);
    if k == |text| {
      if Utf8.Width(text[|text| - 1]) > 1 {
        WideEndingNeverEnds(text, num, mime);
      }
    } else {
      var n: nat :| Done(After(text, num, mime, start, n));
      StartIsSound(text, num, mime);
      AfterIsSound(text, num, mime, start, n);
      AfterHigh(text, num, mime, start, n);
      EndIsRight(text, num, mime, n);
      CutIsNarrow(text, num, mime, k, After(text, num, mime, start, n).high);
    }
  }

  lemma {:induction false} CutIsNarrow(text: string, num: nat, mime: string, k: nat, high: nat)
    requires k < |text| && Fits(text, num, mime, k) && high == Utf8.PrefixLen(text, k)
    requires HighIs(text, num, mime, high) && Fits(text, num, mime, 0)
    ensures Utf8.Width(text[k]) == 1
  {
    hide Fits, Utf8.Width, Utf8.Len;
    Utf8.PrefixLenStep(text, k);
    Utf8.PrefixLenMonotone(text, k + 1, |text|);
    assert text[..|text|] == text;
    if high != Utf8.Len(text) {
      var m :| 0 <= m <= |text| && high + 1 == Utf8.PrefixLen(text, m) && !Fits(text, num, mime, m);
      if m <= k {
        Utf8.PrefixLenMonotone(text, m, k);
      } else {
        Utf8.PrefixLenMonotone(text, k + 1, m);
      }
    }
  }

  // ----- the loops, on every text they end on -----

  /** `select_telemetry_payload_len`: the length in bytes. */
  method SelectPayloadLen(remaining: string, num: nat, mime: string) returns (low: nat)
    requires Ends(remaining, num, mime, Bounds(0, Utf8.Len(remaining)))
    ensures low == Utf8.PrefixLen(remaining, LargestFit(remaining, num, mime, |remaining|))
  {
    hide Fits, Utf8.Encode, Utf8.CharIndex, Utf8.Floor, Record, Sound, Stuck, Ends, After, LargestFit;
    var bytes := Utf8.Encode(remaining);
    ghost var start, n := Bounds(0, |bytes|), 0;
    StartIsSound(remaining, num, mime);
    EndsIffNeverStuck(remaining, num, mime, start);
    AfterStep(remaining, num, mime, start, 0);
    low := 0;
    var high: nat := |bytes|;
    while low < high
      invariant Sound(remaining, num, mime, Bounds(low, high))
      invariant Bounds(low, high) == After(remaining, num, mime, start, n)
      decreases high - low
    {
      ghost var b := Bounds(low, high);
      TurnEffect(remaining, num, mime, b);
      AfterAfter(remaining, num, mime, start, n, 1);
      AfterStep(remaining, num, mime, b, 1);
      AfterStep(remaining, num, mime, Turn(remaining, num, mime, b), 0);
      n := n + 1;
      var mid := Utf8.RoundDown(bytes, (low + high + 1) / 2);
      var k := Utf8.CharIndex(remaining, mid);
      var record := Record(num, mime, remaining[..k]);
      FitsIs(remaining, num, mime, k);
      if Utf8.Len(record) <= MAX_RECORD_BYTES {
        low := mid;
      } else {
        high := if mid == 0 then 0 else mid - 1;
      }
    }
    EndIsRight(remaining, num, mime, n);
  }

  /** Every search that splitting this text runs comes to an end. */
  ghost predicate SearchesEnd(text: string, num: nat, mime: string)
    decreases |text|
  {
    text != [] ==>
      && Ends(text, num, mime, Bounds(0, Utf8.Len(text)))
      && var k := LargestFit(text, num, mime, |text|);
         (k > 0 ==> SearchesEnd(text[k..], NextNum(num), mime))
  }

  lemma {:induction false} AsciiSearchesEnd(text: string, num: nat, mime: string)
    requires IsAscii(text)
    ensures SearchesEnd(text, num, mime)
    decreases |text|
  {
    hide LargestFit, Ends;
    if text != [] {
      AsciiEnds(text, num, mime);
      var k := LargestFit(text, num, mime, |text|);
      if k > 0 {
        AsciiSearchesEnd(text[k..], NextNum(num), mime);
      }
    }
  }

  /** A payload that splits and ends in a multi-byte character makes the loops run for ever: its last search does. */
  lemma {:induction false} WideEndingPayload(text: string, num: nat, mime: string)
    requires text != [] && Utf8.Width(text[|text| - 1]) > 1 && Split(text, num, mime).Ok?
    ensures !SearchesEnd(text, num, mime)
    decreases |text|
  {
    hide LargestFit, Ends, Fits, Record, Utf8.Len, Utf8.Width;
    var k := LargestFit(text, num, mime, |text|);
    LargestFits(text, num, mime, |text|);
    if k == |text| {
      WideEndingNeverEnds(text, num, mime);
    } else {
      var rest := text[k..];
      assert rest[|rest| - 1] == text[|text| - 1];
      WideEndingPayload(rest, NextNum(num), mime);
    }
  }

  /** The smallest push that never returns: one accented letter. */
  lemma {:induction false} AccentedLetterNeverEnds()
    ensures !SearchesEnd("\U{00E9}", 1, "text/plain")
    ensures !Ends("\U{00E9}", 1, "text/plain", Bounds(0, Utf8.Len("\U{00E9}")))
  {
    hide LargestFit, Ends, Fits, Utf8.Len;
    ShortTextFits("\U{00E9}", "text/plain");
    WideEndingNeverEnds("\U{00E9}", 1, "text/plain");
  }

  /** A single-byte ending does not save a text: a three-byte character before one letter blocks the search too. */
  lemma {:induction false} EuroLetterNeverEnds()
    ensures NarrowAtCut("\U{20AC}a", 1, "text/plain")
    ensures !Ends("\U{20AC}a", 1, "text/plain", Bounds(0, Utf8.Len("\U{20AC}a")))
  {
    var text := "\U{20AC}a";
    hide LargestFit, Ends, Fits, Utf8.Encode;
    ShortTextFits(text, "text/plain");
    FittingCut(text, 1, "text/plain");
    Utf8.PrefixLenZero(text);
    Utf8.PrefixLenStep(text, 0);
    Utf8.PrefixLenStep(text, 1);
    BlockedNeverEnds(text, 1, "text/plain", 0);
  }

  /** `build_telemetry_records`, on every text its searches end on: it refines the reference splitting. */
  method BuildRecords(payload: string, mime: string) returns (r: Result<seq<string>, TelemetryError>)
    requires SearchesEnd(payload, 1, mime)
    ensures r == if payload == [] then Err(EmptyPayload) else Split(payload, 1, mime)
  {
    hide Record, LargestFit, Utf8.Encode, Fits, Split, Ends, Utf8.CharIndex, Then;
    if payload == [] {
      return Err(EmptyPayload);
    }
    var remaining, num := payload, 1;
    var records: seq<string> := [];
    ThenNothing(Split(payload, 1, mime));
    while remaining != []
      invariant SearchesEnd(remaining, num, mime)
      invariant Then(records, Split(remaining, num, mime)) == Split(payload, 1, mime)
      decreases |remaining|
    {
      var payloadLen := SelectPayloadLen(remaining, num, mime);
      ghost var best := LargestFit(remaining, num, mime, |remaining|);
      CharIndexOfPrefix(remaining, best);
      Utf8.PrefixLenZero(remaining);
      Utf8.PrefixLenMonotone(remaining, 0, best);
      SplitStep(records, remaining, num, mime);
      if payloadLen == 0 {
        return Err(RecordTooLong);
      }
      var k := Utf8.CharIndex(remaining, payloadLen);
      var record := Record(num, mime, remaining[..k]);
      LargestFits(remaining, num, mime, |remaining|);
      FitsIs(remaining, num, mime, k);
      if Utf8.Len(record) > MAX_RECORD_BYTES {
        return Err(RecordTooLong);
      }
      records := records + [record];
      remaining := remaining[k..];
      num := NextNum(num);
    }
    SplitNothing(records, num, mime);
    r := Ok(records);
  }
}
