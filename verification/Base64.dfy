/** Base64 with a configurable alphabet, line breaks and optional padding. */
module Base64 {
  import opened Bytes

  const IGNORE: int := -1
  const PAD: int := -2

  /** What the tables mean: 64 letters, a padding letter, and the line layout. */
  datatype Alphabet = Alphabet(letters: seq<Byte>, pad: Byte, lineLength: nat, separator: seq<Byte>)

  predicate WellFormed(a: Alphabet) {
    && |a.letters| == 64
    && (forall i, j :: 0 <= i < j < 64 ==> a.letters[i] != a.letters[j])
    && a.pad !in a.letters
    && (forall c :: c in a.separator ==> c !in a.letters && c != a.pad)
  }

  /** The value of a letter, or a marker. */
  function ValueOf(a: Alphabet, c: Byte): (v: int)
    ensures |a.letters| == 64 ==> v < 64
    ensures v < 0 ==> v == PAD || v == IGNORE
  {
    if c == a.pad then PAD else IndexOf(a.letters, c)
  }

  function IndexOf(letters: seq<Byte>, c: Byte): (v: int)
    ensures v < |letters|
    ensures v >= 0 ==> letters[v] == c
    ensures v < 0 ==> v == IGNORE && c !in letters
  {
    if letters == [] then IGNORE
    else if letters[|letters| - 1] == c then |letters| - 1
    else IndexOf(letters[..|letters| - 1], c)
  }

  // ---------- encoding ----------

  function Combine(b0: Byte, b1: Byte, b2: Byte): nat {
    b0 as int * 65536 + b1 as int * 256 + b2 as int
  }

  /** Four letters for three bytes. */
  function Quad(letters: seq<Byte>, b0: Byte, b1: Byte, b2: Byte): (q: seq<Byte>)
    requires |letters| == 64
    ensures |q| == 4
  {
    var n := Combine(b0, b1, b2);
    [letters[n / 64 / 64 / 64 % 64], letters[n / 64 / 64 % 64], letters[n / 64 % 64], letters[n % 64]]
  }

  /** The letters of the last, possibly partial group. */
  function LastQuad(a: Alphabet, s: seq<Byte>, padded: bool): (q: seq<Byte>)
    requires |a.letters| == 64 && 0 < |s| <= 3
  {
    if |s| == 3 then Quad(a.letters, s[0], s[1], s[2])
    else if |s| == 2 then Quad(a.letters, s[0], s[1], 0)[..3] + if padded then [a.pad] else []
    else Quad(a.letters, s[0], 0, 0)[..2] + if padded then [a.pad, a.pad] else []
  }

  /** What precedes a group: a separator when the line is full. */
  function Break(a: Alphabet, linePos: nat): seq<Byte> {
    if linePos + 4 > a.lineLength && a.lineLength != 0 then a.separator else []
  }

  function NextPos(a: Alphabet, linePos: nat): nat {
    if linePos + 4 > a.lineLength then 4 else linePos + 4
  }

  /** The encoding of `s` when the current line already holds `linePos` letters. */
  function EncodeFrom(a: Alphabet, s: seq<Byte>, linePos: nat, padded: bool): (t: seq<Byte>)
    requires |a.letters| == 64
    decreases |s|
  {
    if s == [] then []
    else if |s| <= 3 then Break(a, linePos) + LastQuad(a, s, padded)
    else Break(a, linePos) + Quad(a.letters, s[0], s[1], s[2]) + EncodeFrom(a, s[3..], NextPos(a, linePos), padded)
  }

  function Encoded(a: Alphabet, s: seq<Byte>, padded: bool): seq<Byte>
    requires |a.letters| == 64
  {
    EncodeFrom(a, s, 0, padded)
  }

  // ---------- decoding ----------

  datatype Decoder = Decoder(out: seq<Byte>, cycle: nat, combined: nat, dummies: nat)

  function Step(a: Alphabet, d: Decoder, c: Byte): Decoder {
    var raw := ValueOf(a, c);
    if raw == IGNORE then d
    else
      var value := if raw == PAD then 0 else raw;
      var dummies := if raw == PAD then d.dummies + 1 else d.dummies;
      if d.cycle == 0 then Decoder(d.out, 1, value, dummies)
      else
        var combined := d.combined * 64 + value;
        if d.cycle < 3 then Decoder(d.out, d.cycle + 1, combined, dummies)
        else Decoder(d.out + [combined / 65536 % 256, combined / 256 % 256, combined % 256], 0, combined, dummies)
  }

  function Feed(a: Alphabet, d: Decoder, s: seq<Byte>): Decoder
    decreases |s|
  {
    if s == [] then d else Feed(a, Step(a, d, s[0]), s[1..])
  }

  /** Letters and padding, and padding alone, among the input. */
  function Significant(a: Alphabet, s: seq<Byte>): (n: nat)
    decreases |s|
  {
    if s == [] then 0 else Significant(a, s[..|s| - 1]) + if ValueOf(a, s[|s| - 1]) == IGNORE then 0 else 1
  }

  function Pads(a: Alphabet, s: seq<Byte>): (n: nat)
    decreases |s|
  {
    if s == [] then 0 else Pads(a, s[..|s| - 1]) + if ValueOf(a, s[|s| - 1]) == PAD then 1 else 0
  }

  /**
    The input is more padding than it has bytes to take away: `base64_decode` then computes a negative
    length and ends the text in front of its output.
   */
  predicate Overpadded(a: Alphabet, s: seq<Byte>) {
    Significant(a, s) % 4 == 0 && Pads(a, s) > 3 * (Significant(a, s) / 4)
  }

  /** The decoder has counted them. */
  lemma {:induction false} FeedCounts(a: Alphabet, s: seq<Byte>)
    ensures var d := Feed(a, Decoder([], 0, 0, 0), s);
            && d.cycle == Significant(a, s) % 4 && |d.out| == 3 * (Significant(a, s) / 4) && d.dummies == Pads(a, s)
    decreases |s|
  {
    if s != [] {
      var front, last := s[..|s| - 1], s[|s| - 1];
      FeedCounts(a, front);
      FeedConcat(a, Decoder([], 0, 0, 0), front, [last]);
      assert s == front + [last];
      var d := Feed(a, Decoder([], 0, 0, 0), front);
      assert Feed(a, d, [last]) == Step(a, d, last);
      hide Step, Feed, ValueOf;
      StepCounts(a, d, last);
      NextCount(Significant(a, front));
    }
  }

  /** One more byte: one more in the cycle of four, three bytes out at its end. */
  lemma StepCounts(a: Alphabet, d: Decoder, c: Byte)
    requires d.cycle < 4
    ensures var e, raw := Step(a, d, c), ValueOf(a, c);
            && e.cycle == (if raw == IGNORE then d.cycle else if d.cycle == 3 then 0 else d.cycle + 1)
            && |e.out| == |d.out| + (if raw != IGNORE && d.cycle == 3 then 3 else 0)
            && e.dummies == d.dummies + (if raw == PAD then 1 else 0)
  {
    hide ValueOf;
  }

  lemma NextCount(n: nat)
    ensures (n + 1) % 4 == (if n % 4 == 3 then 0 else n % 4 + 1)
    ensures (n + 1) / 4 == n / 4 + (if n % 4 == 3 then 1 else 0)
  {
  }

  /** The decoded bytes; empty when the letters do not come in fours. */
  function Result(d: Decoder): seq<Byte> {
    if d.cycle != 0 || d.dummies > |d.out| then [] else d.out[..|d.out| - d.dummies]
  }

  function Decoded(a: Alphabet, s: seq<Byte>): seq<Byte> {
    Result(Feed(a, Decoder([], 0, 0, 0), s))
  }

  /** The input with padding up to a multiple of four. */
  function Completed(a: Alphabet, s: seq<Byte>): seq<Byte> {
    if |s| % 4 == 0 then s else s + seq(4 - |s| % 4, _ => a.pad)
  }

  function DecodedAuto(a: Alphabet, s: seq<Byte>): seq<Byte> { Decoded(a, Completed(a, s)) }

  // ---------- the round trip ----------

  lemma {:induction false} FeedConcat(a: Alphabet, d: Decoder, s: seq<Byte>, t: seq<Byte>)
    ensures Feed(a, d, s + t) == Feed(a, Feed(a, d, s), t)
    decreases |s|
  {
    hide Step;
    if s == [] {
      assert s + t == t;
    } else {
      FeedConcat(a, Step(a, d, s[0]), s[1..], t);
      assert (s + t)[1..] == s[1..] + t;
    }
  }

  lemma {:induction false} FeedSeparator(a: Alphabet, d: Decoder, s: seq<Byte>)
    requires WellFormed(a) && forall c :: c in s ==> c in a.separator
    ensures Feed(a, d, s) == d
    decreases |s|
  {
    if s != [] {
      assert s[0] in a.separator;
      FeedSeparator(a, d, s[1..]);
    }
  }

  lemma LetterValue(a: Alphabet, i: nat)
    requires WellFormed(a) && i < 64
    ensures ValueOf(a, a.letters[i]) == i
  {
  }

  lemma SixBitParts(n: nat)
    requires n < 0x100_0000
    ensures var c0, c1, c2, c3 := n / 64 / 64 / 64 % 64, n / 64 / 64 % 64, n / 64 % 64, n % 64;
            ((c0 * 64 + c1) * 64 + c2) * 64 + c3 == n
  {
  }

  lemma EightBitParts(b0: Byte, b1: Byte, b2: Byte)
    ensures var n := Combine(b0, b1, b2);
            n < 0x100_0000 && n / 65536 % 256 == b0 && n / 256 % 256 == b1 && n % 256 == b2
  {
    LowByte(b0 as nat * 256 + b1 as nat, b2);
    LowByte(b0 as nat, b1);
    HighByte(b0, b1 as nat * 256 + b2 as nat);
    LowByte(0, b0);
  }

  lemma LowByte(q: nat, b: Byte)
    ensures (q * 256 + b as nat) / 256 == q && (q * 256 + b as nat) % 256 == b as nat
  {
  }

  lemma HighByte(b: Byte, low: nat)
    requires low < 65536
    ensures (b as nat * 65536 + low) / 65536 == b as nat
  {
  }

  lemma FeedOne(a: Alphabet, d: Decoder, c: Byte, rest: seq<Byte>)
    ensures Feed(a, d, [c] + rest) == Feed(a, Step(a, d, c), rest)
  {
  }

  lemma FeedFour(a: Alphabet, out: seq<Byte>, c0: Byte, c1: Byte, c2: Byte, c3: Byte, junk: nat)
    requires ValueOf(a, c0) >= 0 && ValueOf(a, c1) >= 0
    requires ValueOf(a, c2) != IGNORE && ValueOf(a, c3) != IGNORE
    ensures var v2 := if ValueOf(a, c2) == PAD then 0 else ValueOf(a, c2);
            var v3 := if ValueOf(a, c3) == PAD then 0 else ValueOf(a, c3);
            var n := ((ValueOf(a, c0) * 64 + ValueOf(a, c1)) * 64 + v2) * 64 + v3;
            Feed(a, Decoder(out, 0, junk, 0), [c0, c1, c2, c3])
            == Decoder(out + [n / 65536 % 256, n / 256 % 256, n % 256], 0, n,
                       (if ValueOf(a, c2) == PAD then 1 else 0) + (if ValueOf(a, c3) == PAD then 1 else 0))
  {
    hide ValueOf, Feed;
    var d0 := Decoder(out, 0, junk, 0);
    var d1 := Step(a, d0, c0);
    var d2 := Step(a, d1, c1);
    var d3 := Step(a, d2, c2);
    assert [c0] + [c1, c2, c3] == [c0, c1, c2, c3] && [c1] + [c2, c3] == [c1, c2, c3];
    assert [c2] + [c3] == [c2, c3] && [c3] + [] == [c3];
    FeedOne(a, d0, c0, [c1, c2, c3]);
    FeedOne(a, d1, c1, [c2, c3]);
    FeedOne(a, d2, c2, [c3]);
    FeedOne(a, d3, c3, []);
    FeedNothing(a, Step(a, d3, c3));
  }

  lemma FeedQuad(a: Alphabet, out: seq<Byte>, junk: nat, b0: Byte, b1: Byte, b2: Byte)
    requires WellFormed(a)
    ensures Feed(a, Decoder(out, 0, junk, 0), Quad(a.letters, b0, b1, b2))
         == Decoder(out + [b0, b1, b2], 0, Combine(b0, b1, b2), 0)
  {
    hide ValueOf, Combine;
    var n := Combine(b0, b1, b2);
    var q := Quad(a.letters, b0, b1, b2);
    LetterValue(a, n / 64 / 64 / 64 % 64);
    LetterValue(a, n / 64 / 64 % 64);
    LetterValue(a, n / 64 % 64);
    LetterValue(a, n % 64);
    EightBitParts(b0, b1, b2);
    SixBitParts(n);
    FeedFour(a, out, q[0], q[1], q[2], q[3], junk);
  }

  /** Three bytes in base 256 are four letters in base 64, both the most significant first. */
  lemma QuadIs(a: Alphabet, b0: Byte, b1: Byte, b2: Byte)
    requires WellFormed(a)
    ensures var q := Quad(a.letters, b0, b1, b2);
            ((ValueOf(a, q[0]) * 64 + ValueOf(a, q[1])) * 64 + ValueOf(a, q[2])) * 64 + ValueOf(a, q[3])
            == (b0 as int * 256 + b1 as int) * 256 + b2 as int
  {
    hide ValueOf;
    var n := Combine(b0, b1, b2);
    LetterValue(a, n / 64 / 64 / 64 % 64);
    LetterValue(a, n / 64 / 64 % 64);
    LetterValue(a, n / 64 % 64);
    LetterValue(a, n % 64);
    SixBitParts(n);
  }

  lemma FeedLast(a: Alphabet, out: seq<Byte>, junk: nat, s: seq<Byte>)
    requires WellFormed(a) && 0 < |s| <= 3
    ensures Result(Feed(a, Decoder(out, 0, junk, 0), LastQuad(a, s, true))) == out + s
  {
    hide ValueOf, Combine, Feed;
    if |s| == 3 {
      FeedQuad(a, out, junk, s[0], s[1], s[2]);
    } else {
      hide Result, LastQuad;
      if |s| == 2 {
        FeedTwo(a, out, junk, s[0], s[1]);
        assert s == [s[0], s[1]];
      } else {
        FeedTail(a, out, junk, s[0]);
        assert s == [s[0]];
      }
    }
  }

  /** Two leftover bytes, and one pad. */
  lemma FeedTwo(a: Alphabet, out: seq<Byte>, junk: nat, b0: Byte, b1: Byte)
    requires WellFormed(a)
    ensures Result(Feed(a, Decoder(out, 0, junk, 0), LastQuad(a, [b0, b1], true))) == out + [b0, b1]
  {
    hide ValueOf, Combine, Feed;
    var n := Combine(b0, b1, 0);
    LetterValue(a, n / 64 / 64 / 64 % 64);
    LetterValue(a, n / 64 / 64 % 64);
    LetterValue(a, n / 64 % 64);
    EightBitParts(b0, b1, 0);
    SixBitParts(n);
    LowBitsZero(b0, b1);
    PadValue(a);
    var q := LastQuad(a, [b0, b1], true);
    FeedFour(a, out, q[0], q[1], q[2], q[3], junk);
    assert q == [q[0], q[1], q[2], q[3]];
  }

  /** One leftover byte, and two pads. */
  lemma FeedTail(a: Alphabet, out: seq<Byte>, junk: nat, b0: Byte)
    requires WellFormed(a)
    ensures Result(Feed(a, Decoder(out, 0, junk, 0), LastQuad(a, [b0], true))) == out + [b0]
  {
    hide ValueOf, Combine, Feed;
    var n := Combine(b0, 0, 0);
    LetterValue(a, n / 64 / 64 / 64 % 64);
    LetterValue(a, n / 64 / 64 % 64);
    EightBitParts(b0, 0, 0);
    SixBitParts(n);
    LowBitsZero(b0, 0);
    PadValue(a);
    var q := LastQuad(a, [b0], true);
    FeedFour(a, out, q[0], q[1], q[2], q[3], junk);
    assert q == [q[0], q[1], q[2], q[3]];
  }

  lemma PadValue(a: Alphabet)
    ensures ValueOf(a, a.pad) == PAD
  {
  }

  lemma LowBitsZero(b0: Byte, b1: Byte)
    ensures Combine(b0, b1, 0) % 64 == 0 && Combine(b0, 0, 0) / 64 % 64 == 0
  {
  }

  /** Decoding a padded encoding returns the input, whatever the line layout. */
  lemma {:induction false} RoundTripFrom(a: Alphabet, s: seq<Byte>, linePos: nat, out: seq<Byte>, junk: nat)
    requires WellFormed(a)
    ensures Result(Feed(a, Decoder(out, 0, junk, 0), EncodeFrom(a, s, linePos, true))) == out + s
    decreases |s|
  {
    hide Feed, Quad, LastQuad;
    var d := Decoder(out, 0, junk, 0);
    FeedSeparator(a, d, Break(a, linePos));
    if s == [] {
      FeedNothing(a, d);
    } else if |s| <= 3 {
      FeedConcat(a, d, Break(a, linePos), LastQuad(a, s, true));
      FeedLast(a, out, junk, s);
    } else {
      var q := Quad(a.letters, s[0], s[1], s[2]);
      var rest := EncodeFrom(a, s[3..], NextPos(a, linePos), true);
      FeedConcat(a, d, Break(a, linePos) + q, rest);
      FeedConcat(a, d, Break(a, linePos), q);
      FeedQuad(a, out, junk, s[0], s[1], s[2]);
      RoundTripFrom(a, s[3..], NextPos(a, linePos), out + [s[0], s[1], s[2]], Combine(s[0], s[1], s[2]));
      assert out + [s[0], s[1], s[2]] + s[3..] == out + s;
    }
  }

  lemma FeedNothing(a: Alphabet, d: Decoder)
    ensures Feed(a, d, []) == d
  {
  }

  lemma RoundTrip(a: Alphabet, s: seq<Byte>)
    requires WellFormed(a)
    ensures Decoded(a, Encoded(a, s, true)) == s
  {
    RoundTripFrom(a, s, 0, [], 0);
  }

  /** Without line breaks the unpadded form is the padded one minus its padding. */
  lemma {:induction false} Unpadded(a: Alphabet, s: seq<Byte>, linePos: nat)
    requires WellFormed(a) && a.lineLength == 0
    ensures var u := EncodeFrom(a, s, linePos, false);
            EncodeFrom(a, s, linePos, true) == if |u| % 4 == 0 then u else u + seq(4 - |u| % 4, _ => a.pad)
    decreases |s|
  {
    hide Quad, LastQuad;
    if |s| > 3 {
      Unpadded(a, s[3..], NextPos(a, linePos));
    } else if |s| > 0 {
      LastUnpadded(a, s);
    }
  }

  lemma LastUnpadded(a: Alphabet, s: seq<Byte>)
    requires |a.letters| == 64 && 0 < |s| <= 3
    ensures var u := LastQuad(a, s, false);
            LastQuad(a, s, true) == if |u| % 4 == 0 then u else u + seq(4 - |u| % 4, _ => a.pad)
  {
    hide Combine;
  }

  /** `base64_decode_auto` also inverts the unpadded form. */
  lemma RoundTripAuto(a: Alphabet, s: seq<Byte>)
    requires WellFormed(a) && a.lineLength == 0
    ensures DecodedAuto(a, Encoded(a, s, false)) == s
  {
    hide Feed;
    Unpadded(a, s, 0);
    RoundTrip(a, s);
  }

  /** So the unpadded form names its input, which is what makes it usable as a sort key. */
  lemma Injective(a: Alphabet, s: seq<Byte>, t: seq<Byte>)
    requires WellFormed(a) && a.lineLength == 0
    ensures Encoded(a, s, false) == Encoded(a, t, false) <==> s == t
  {
    RoundTripAuto(a, s);
    RoundTripAuto(a, t);
  }

  // ---------- exact length ----------

  function EncodeLength(a: Alphabet, n: nat): nat {
    var chars := (n + 2) / 3 * 4;
    if a.lineLength == 0 then chars
    else
      var lines := (chars + a.lineLength - 1) / a.lineLength - 1;
      if lines > 0 then chars + lines * |a.separator| else chars
  }

  /** Separators met by `n` groups on a line that already holds `linePos` letters. */
  function Breaks(a: Alphabet, n: nat, linePos: nat): nat {
    if n == 0 then 0
    else (if linePos + 4 > a.lineLength && a.lineLength != 0 then 1 else 0) + Breaks(a, n - 1, NextPos(a, linePos))
  }

  lemma {:induction false} EncodedSize(a: Alphabet, s: seq<Byte>, linePos: nat)
    requires |a.letters| == 64
    ensures |EncodeFrom(a, s, linePos, true)|
         == (|s| + 2) / 3 * 4 + Breaks(a, (|s| + 2) / 3, linePos) * |a.separator|
    decreases |s|
  {
    hide Quad;
    var n := (|s| + 2) / 3;
    if s != [] {
      var b, rest := |Break(a, linePos)|, Breaks(a, n - 1, NextPos(a, linePos));
      assert b + rest * |a.separator| == Breaks(a, n, linePos) * |a.separator|;
      if |s| > 3 {
        EncodedSize(a, s[3..], NextPos(a, linePos));
      }
    }
  }

  lemma OneMoreLine(g: nat, x: nat)
    requires g > 0
    ensures (g + x) / g == 1 + x / g
  {
    assert (g + x) / g == 1 + x / g by {
      var q, r := x / g, x % g;
      assert x == g * q + r;
      assert g + x == g * (q + 1) + r;
      UniqueQuotient(g + x, g, q + 1, r);
    }
  }

  lemma UniqueQuotient(x: nat, g: nat, q: nat, r: nat)
    requires g > 0 && r < g && x == g * q + r
    ensures x / g == q
  {
    var d := x / g - q;
    assert g * (x / g) + x % g == x;
    assert g * d == r - x % g;
    assert d >= 1 ==> g * d >= g;
    assert d <= -1 ==> g * d <= -(g as int);
  }

  lemma {:induction false} BreaksIs(a: Alphabet, n: nat, filled: nat, g: nat)
    requires g > 0 && 4 * g <= a.lineLength < 4 * g + 4 && filled <= g && filled + n > 0
    ensures Breaks(a, n, 4 * filled) == (filled + n - 1) / g
    decreases n
  {
    if n == 0 {
      UniqueQuotient(filled - 1, g, 0, filled - 1);
    } else if filled == g {
      BreaksIs(a, n - 1, 1, g);
      OneMoreLine(g, n - 1);
    } else {
      BreaksIs(a, n - 1, filled + 1, g);
    }
  }

  /** `base64_get_encode_length` is the exact length of the padded form. */
  lemma LengthExact(a: Alphabet, s: seq<Byte>)
    requires |a.letters| == 64 && a.lineLength % 4 == 0
    ensures |Encoded(a, s, true)| == EncodeLength(a, |s|)
  {
    hide EncodeFrom;
    var n := (|s| + 2) / 3;
    EncodedSize(a, s, 0);
    if a.lineLength == 0 {
      NoBreaks(a, n, 0);
    } else {
      var g := a.lineLength / 4;
      LinesIs(n, g);
      if n > 0 {
        BreaksIs(a, n, 0, g);
      }
    }
  }

  /** The rounding in the source, with line length 4g and n groups of letters. */
  lemma LinesIs(n: nat, g: nat)
    requires g > 0
    ensures (4 * n + 4 * g - 1) / (4 * g) - 1 == if n == 0 then -1 else (n - 1) / g
  {
    if n == 0 {
      UniqueQuotient(4 * g - 1, 4 * g, 0, 4 * g - 1);
    } else {
      var q, r := (n - 1) / g, (n - 1) % g;
      assert n - 1 == g * q + r;
      assert 4 * n + 4 * g - 1 == (4 * g) * (q + 1) + (4 * r + 3) by {
        assert (4 * g) * (q + 1) == 4 * (g * q) + 4 * g;
      }
      UniqueQuotient(4 * n + 4 * g - 1, 4 * g, q + 1, 4 * r + 3);
    }
  }

  lemma {:induction false} NoBreaks(a: Alphabet, n: nat, linePos: nat)
    requires a.lineLength == 0
    ensures Breaks(a, n, linePos) == 0
    decreases n
  {
    if n > 0 {
      NoBreaks(a, n - 1, NextPos(a, linePos));
    }
  }

  /** The computed length is right for every input exactly if lines hold whole groups. */
  lemma LengthExactly(a: Alphabet)
    requires |a.letters| == 64 && a.separator != []
    ensures (forall s :: |Encoded(a, s, true)| == EncodeLength(a, |s|)) <==> a.lineLength % 4 == 0
  {
    hide Encoded, EncodeLength;
    if a.lineLength % 4 == 0 {
      forall s ensures |Encoded(a, s, true)| == EncodeLength(a, |s|) {
        LengthExact(a, s);
      }
    } else {
      var s := LengthWrong(a);
      assert |Encoded(a, s, true)| != EncodeLength(a, |s|);
    }
  }

  /** With a line length L that is no multiple of four, L full lines are one input it gets wrong. */
  lemma LengthWrong(a: Alphabet) returns (s: seq<Byte>)
    requires |a.letters| == 64 && a.separator != [] && a.lineLength % 4 != 0
    ensures |Encoded(a, s, true)| != EncodeLength(a, |s|)
  {
    hide Encoded, EncodeLength, Breaks;
    var l, g := a.lineLength, a.lineLength / 4;
    var n := if g == 0 then 4 else g * l;
    s := seq(3 * n, _ => 0);
    if g == 0 {
      ShortLines(a, 4, 0);
    } else {
      BreaksIs(a, n, 0, g);
      FullLines(l, g);
    }
    WrongLines(a, s, n);
  }

  /** Where the computed number of lines is not the number of breaks, the length is wrong. */
  lemma WrongLines(a: Alphabet, s: seq<Byte>, n: nat)
    requires |a.letters| == 64 && a.separator != [] && a.lineLength > 0 && |s| == 3 * n
    requires (4 * n + a.lineLength - 1) / a.lineLength - 1 != Breaks(a, n, 0)
    requires (4 * n + a.lineLength - 1) / a.lineLength - 1 >= 0
    ensures |Encoded(a, s, true)| != EncodeLength(a, |s|)
  {
    hide EncodeFrom, Breaks;
    EncodedSize(a, s, 0);
    assert (3 * n + 2) / 3 == n;
    Different(Breaks(a, n, 0), (4 * n + a.lineLength - 1) / a.lineLength - 1, |a.separator|);
  }

  lemma {:induction false} ShortLines(a: Alphabet, n: nat, linePos: nat)
    requires 0 < a.lineLength < 4
    ensures Breaks(a, n, linePos) == n
    decreases n
  {
    if n > 0 {
      ShortLines(a, n - 1, NextPos(a, linePos));
    }
  }

  lemma Different(x: int, y: int, k: nat)
    requires x != y && k > 0
    ensures x * k != y * k
  {
    assert x * k - y * k == (x - y) * k;
  }

  /** L full lines of g groups: L - 1 breaks, but the formula counts fewer. */
  lemma FullLines(l: nat, g: nat)
    requires g == l / 4 && g > 0 && l % 4 != 0
    ensures g * l > 0 && (g * l - 1) / g == l - 1
    ensures (4 * (g * l) + l - 1) / l - 1 < l - 1
    ensures (4 * (g * l) + l - 1) / l - 1 >= 0
  {
    assert g * l - 1 == g * (l - 1) + (g - 1);
    UniqueQuotient(g * l - 1, g, l - 1, g - 1);
    assert 4 * (g * l) + l - 1 == l * (4 * g) + (l - 1);
    UniqueQuotient(4 * (g * l) + l - 1, l, 4 * g, l - 1);
  }
}
