/** The encoder and decoder themselves: lookup tables filled by loops, and loops over the text. */
module Base64Context {
  import opened Bytes
  import opened Base64

  const NEWLINE: Byte := 10

  /** A-Z, a-z, 0-9 and the two configurable letters. */
  function Letters(plus: Byte, slash: Byte): (s: seq<Byte>)
    ensures |s| == 64
  {
    seq(64, i => if i < 26 then 65 + i else if i < 52 then 97 + i - 26 else if i < 62 then 48 + i - 52
                 else if i == 62 then plus else slash)
  }

  predicate Alphanumeric(c: Byte) { 65 <= c <= 90 || 97 <= c <= 122 || 48 <= c <= 57 }

  /** The standard alphabet of section 4 of RFC 4648, and any like it, can be decoded. */
  lemma LettersWellFormed(plus: Byte, slash: Byte, pad: Byte, lineLength: nat)
    requires !Alphanumeric(plus) && !Alphanumeric(slash) && !Alphanumeric(pad)
    requires plus != slash && plus != pad && slash != pad
    requires plus != NEWLINE && slash != NEWLINE && pad != NEWLINE
    ensures WellFormed(Alphabet(Letters(plus, slash), pad, lineLength, [NEWLINE]))
  {
  }

  class Context {
    const lineLength: nat
    const separator: seq<Byte>
    const pad: Byte
    const valueToChar: array<Byte>
    const charToValue: array<int>

    ghost function Meaning(): Alphabet
      reads valueToChar
    {
      Alphabet(valueToChar[..], pad, lineLength, separator)
    }

    ghost predicate Valid()
      reads valueToChar, charToValue
    {
      && valueToChar.Length == 64 && charToValue.Length == 256
      && (forall c: Byte :: charToValue[c] == ValueOf(Meaning(), c))
    }

    constructor (lineLength: nat, plus: Byte, slash: Byte, pad: Byte)
      ensures Valid()
      ensures Meaning() == Alphabet(Letters(plus, slash), pad, lineLength, [NEWLINE])
      ensures fresh(valueToChar) && fresh(charToValue)
    {
      this.lineLength, this.pad, separator := lineLength, pad, [NEWLINE];
      valueToChar := new Byte[64];
      charToValue := new int[256];
      new;
      FillLetters(plus, slash);
      FillValues();
    }

    method FillLetters(plus: Byte, slash: Byte)
      requires valueToChar.Length == 64
      modifies valueToChar
      ensures valueToChar[..] == Letters(plus, slash)
    {
      for i := 0 to 26
        invariant forall k :: 0 <= k < i ==> valueToChar[k] == 65 + k
      {
        valueToChar[i] := 65 + i;
      }
      for i := 0 to 26
        invariant forall k :: 0 <= k < 26 ==> valueToChar[k] == 65 + k
        invariant forall k :: 26 <= k < 26 + i ==> valueToChar[k] == 97 + k - 26
      {
        valueToChar[i + 26] := 97 + i;
      }
      for i := 0 to 10
        invariant forall k :: 0 <= k < 26 ==> valueToChar[k] == 65 + k
        invariant forall k :: 26 <= k < 52 ==> valueToChar[k] == 97 + k - 26
        invariant forall k :: 52 <= k < 52 + i ==> valueToChar[k] == 48 + k - 52
      {
        valueToChar[i + 52] := 48 + i;
      }
      valueToChar[62], valueToChar[63] := plus, slash;
    }

    /** The inverse table; a letter listed twice keeps its last value, and padding wins. */
    method FillValues()
      requires valueToChar.Length == 64 && charToValue.Length == 256 && valueToChar as object != charToValue
      modifies charToValue
      ensures Valid() && valueToChar[..] == old(valueToChar[..])
    {
      ghost var letters := valueToChar[..];
      forall c | 0 <= c < 256 {
        charToValue[c] := IGNORE;
      }
      for i := 0 to 64
        invariant valueToChar[..] == letters
        invariant forall c: Byte :: charToValue[c] == IndexOf(letters[..i], c)
      {
        assert letters[..i + 1][..i] == letters[..i];
        charToValue[valueToChar[i]] := i;
      }
      assert letters[..64] == letters;
      charToValue[pad] := PAD;
    }

    method Emit(dest: seq<Byte>, linePos: nat, b0: Byte, b1: Byte, b2: Byte)
        returns (dest': seq<Byte>, linePos': nat)
      requires Valid()
      ensures dest' == dest + Break(Meaning(), linePos) + Quad(valueToChar[..], b0, b1, b2)
      ensures linePos' == NextPos(Meaning(), linePos)
    {
      dest', linePos' := dest, linePos + 4;
      if linePos' > lineLength {
        if lineLength != 0 {
          dest' := dest' + separator;
        }
        linePos' := 4;
      }
      var combined := Combine(b0, b1, b2);
      var c3 := combined % 64;
      combined := combined / 64;
      var c2 := combined % 64;
      combined := combined / 64;
      var c1 := combined % 64;
      combined := combined / 64;
      var c0 := combined % 64;
      dest' := dest' + [valueToChar[c0], valueToChar[c1], valueToChar[c2], valueToChar[c3]];
    }

    /** One or two bytes at the end: a full group, then its last letters padded or cut off. */
    method EmitLeftover(dest: seq<Byte>, linePos: nat, s: seq<Byte>, padded: bool) returns (dest': seq<Byte>)
      requires Valid() && 0 < |s| < 3
      ensures dest' == dest + EncodeFrom(Meaning(), s, linePos, padded)
    {
      hide Break, Quad;
      ghost var before := dest + Break(Meaning(), linePos);
      var tail: Byte := if |s| == 2 then s[1] else 0;
      var nextPos;
      dest', nextPos := Emit(dest, linePos, s[0], tail, 0);
      var cut := 3 - |s|;
      dest' := dest'[..|dest'| - cut] + if padded then seq(cut, _ => pad) else [];
      assert dest' == before + LastQuad(Meaning(), s, padded);
    }

    method Encode(src: seq<Byte>, padded: bool) returns (dest: seq<Byte>)
      requires Valid()
      ensures dest == Encoded(Meaning(), src, padded)
    {
      hide EncodeFrom, Break, NextPos, Quad;
      dest := [];
      var linePos, i := 0, 0;
      var whole := |src| / 3 * 3;
      var leftover := |src| - whole;
      while i < whole
        invariant 0 <= i <= whole && i % 3 == 0
        invariant Encoded(Meaning(), src, padded) == dest + EncodeFrom(Meaning(), src[i..], linePos, padded)
      {
        GroupStep(Meaning(), src[i..], linePos, padded);
        dest, linePos := Emit(dest, linePos, src[i], src[i + 1], src[i + 2]);
        assert src[i..][3..] == src[i + 3..];
        i := i + 3;
      }
      if leftover != 0 {
        dest := EmitLeftover(dest, linePos, src[whole..], padded);
      } else {
        EncodeNothing(Meaning(), linePos, padded);
        assert src[i..] == [];
      }
    }

    /** `base64_decode`; `underrun` says that the computed length is negative. */
    method Decode(src: seq<Byte>) returns (dest: seq<Byte>, underrun: bool)
      requires Valid()
      ensures underrun <==> Overpadded(Meaning(), src)
      ensures dest == Decoded(Meaning(), src)
    {
      hide ValueOf;
      var out: seq<Byte>, cycle: nat, combined: nat, dummies: nat := [], 0, 0, 0;
      ghost var a := Meaning();
      for i := 0 to |src|
        invariant Feed(a, Decoder([], 0, 0, 0), src) == Feed(a, Decoder(out, cycle, combined, dummies), src[i..])
        invariant cycle < 4
      {
        ghost var d := Decoder(out, cycle, combined, dummies);
        assert [src[i]] + src[i + 1..] == src[i..];
        FeedOne(a, d, src[i], src[i + 1..]);
        var value := charToValue[src[i]];
        if value != IGNORE {
          if value == PAD {
            value := 0;
            dummies := dummies + 1;
          }
          if cycle == 0 {
            combined, cycle := value, 1;
          } else {
            combined := combined * 64 + value;
            if cycle == 3 {
              out := out + [combined / 65536 % 256, combined / 256 % 256, combined % 256];
              cycle := 0;
            } else {
              cycle := cycle + 1;
            }
          }
        }
        assert Decoder(out, cycle, combined, dummies) == Step(a, d, src[i]);
      }
      FeedNothing(a, Decoder(out, cycle, combined, dummies));
      FeedCounts(a, src);
      if cycle != 0 {
        return [], false;
      }
      if dummies > |out| {
        return [], true;
      }
      dest, underrun := out[..|out| - dummies], false;
    }

    method DecodeAuto(src: seq<Byte>) returns (dest: seq<Byte>, underrun: bool)
      requires Valid()
      ensures underrun <==> Overpadded(Meaning(), Completed(Meaning(), src))
      ensures dest == DecodedAuto(Meaning(), src)
    {
      var remain := |src| % 4;
      if remain == 0 {
        dest, underrun := Decode(src);
      } else {
        dest, underrun := Decode(src + seq(4 - remain, _ => pad));
      }
    }
  }

  lemma EncodeNothing(a: Alphabet, linePos: nat, padded: bool)
    requires |a.letters| == 64
    ensures EncodeFrom(a, [], linePos, padded) == []
  {
  }

  lemma GroupStep(a: Alphabet, s: seq<Byte>, linePos: nat, padded: bool)
    requires |a.letters| == 64 && |s| >= 3
    ensures EncodeFrom(a, s, linePos, padded)
         == Break(a, linePos) + Quad(a.letters, s[0], s[1], s[2]) + EncodeFrom(a, s[3..], NextPos(a, linePos), padded)
  {
  }
}
