/**
 What the base-32 codec does to the bits (RFC 4648, section 6), with the bits of each
 letter and of each byte written out.
 */
module Base32Bits {
  import opened Base32
  import opened Options
  import opened Seqs
  import opened Text

  const LETTERS := "ABCDEFGHIJKLMNOPQRSTUVWXYZ234567"

  predicate IsBits(w: string) {
    forall k | 0 <= k < |w| :: w[k] == '0' || w[k] == '1'
  }

  function Bit(c: char): nat {
    if c == '1' then 1 else 0
  }

  function Five(w: string, i: nat): nat
    requires i + 5 <= |w|
  {
    16 * Bit(w[i]) + 8 * Bit(w[i + 1]) + 4 * Bit(w[i + 2]) + 2 * Bit(w[i + 3]) + Bit(w[i + 4])
  }

  function Eight(w: string, i: nat): nat
    requires i + 8 <= |w|
  {
    128 * Bit(w[i]) + 64 * Bit(w[i + 1]) + 32 * Bit(w[i + 2]) + 16 * Bit(w[i + 3])
    + 8 * Bit(w[i + 4]) + 4 * Bit(w[i + 5]) + 2 * Bit(w[i + 6]) + Bit(w[i + 7])
  }

  /** Each letter stands for five of the bits, in order, the first the highest. */
  ghost predicate Spells(w: string, text: string) {
    && IsBits(w) && |w| == 5 * |text|
    && forall i | 0 <= i < |text| :: Five(w, 5 * i) < 32 && text[i] == LETTERS[Five(w, 5 * i)]
  }

  /** The bytes are the first bits, eight each, the first the highest. */
  ghost predicate Holds(w: string, bytes: seq<nat>) {
    && 8 * |bytes| <= |w|
    && forall i | 0 <= i < |bytes| :: Eight(w, 8 * i) == bytes[i]
  }

  lemma BitDigits(w: string)
    ensures IsBits(w) <==> DigitsBelow(w, 2)
  {
  }

  lemma BitValue(c: char)
    requires IsDigit(c) && DigitValue(c) < 2
    ensures DigitValue(c) == Bit(c)
  {
  }

  lemma FiveIsParsed(w: string, i: nat)
    requires i + 5 <= |w| && DigitsBelow(w, 2)
    ensures Parse(w[i..i + 5], 2) == Five(w, i) < 32
  {
    hide Parse, DigitValue, IsDigit;
    FiveDigits(w[i..i + 5], 2);
    forall k | i <= k < i + 5 ensures DigitValue(w[k]) == Bit(w[k]) {
      BitValue(w[k]);
    }
  }

  lemma EightIsParsed(w: string, i: nat)
    requires i + 8 <= |w| && DigitsBelow(w, 2)
    ensures Parse(w[i..i + 8], 2) == Eight(w, i) < 256
  {
    hide Parse, DigitValue, IsDigit;
    FiveIsParsed(w, i);
    forall k | i <= k < i + 8 ensures DigitValue(w[k]) == Bit(w[k]) {
      BitValue(w[k]);
    }
    ParseOneMore(w[i..i + 5], w[i + 5], 2);
    ParseOneMore(w[i..i + 6], w[i + 6], 2);
    ParseOneMore(w[i..i + 7], w[i + 7], 2);
    assert w[i..i + 6] == w[i..i + 5] + [w[i + 5]];
    assert w[i..i + 7] == w[i..i + 6] + [w[i + 6]];
    assert w[i..i + 8] == w[i..i + 7] + [w[i + 7]];
  }

  lemma GroupAt(bits: string, width: nat, i: nat)
    requires 1 <= width && i < |Groups(bits, width)|
    ensures width * i + width <= |bits| && Groups(bits, width)[i] == Parse(bits[width * i..width * i + width], 2)
  {
    hide Parse;
    ChunkAt(bits, width, i);
  }

  lemma BytesAreHeld(bits: string)
    requires DigitsBelow(bits, 2)
    ensures Holds(bits, Groups(bits, 8)) && |Groups(bits, 8)| == |bits| / 8
  {
    hide Parse, Groups;
    var bytes := Groups(bits, 8);
    BitsOfGroups(bits, 8);
    forall i | 0 <= i < |bytes| ensures Eight(bits, 8 * i) == bytes[i] {
      GroupAt(bits, 8, i);
      EightIsParsed(bits, 8 * i);
    }
  }

  lemma LettersSpell(text: string)
    requires InAlphabet(text)
    ensures Spells(Bits(Indices(text), 5), text)
  {
    hide Parse, Bits, Groups, Five, Indices, Alphabet, InAlphabet;
    var w := Bits(Indices(text), 5);
    LettersOfIndices(text);
    IndicesLength(text);
    BitsShape(Indices(text), 5);
    BitDigits(w);
    GroupsOfBits(Indices(text), 5, "");
    assert w + "" == w;
    forall i | 0 <= i < |text| ensures Five(w, 5 * i) < 32 && text[i] == LETTERS[Five(w, 5 * i)] {
      GroupAt(w, 5, i);
      FiveIsParsed(w, 5 * i);
      LetterOfIndex(text, i);
    }
  }

  lemma LetterOfIndex(text: string, i: nat)
    requires InAlphabet(text) && i < |text|
    ensures |Indices(text)| == |text| && Indices(text)[i] < 32 && text[i] == LETTERS[Indices(text)[i]]
  {
    AlphabetSpelled();
  }

  /** The text of a byte sequence: its bits, and fewer than five zeros, five to a letter. */
  lemma EncodingByBits(bytes: seq<Byte>)
    ensures exists w ::
      && Spells(w, Encoded(bytes)) && Holds(w, bytes)
      && |w| < 8 * |bytes| + 5 && forall k | 8 * |bytes| <= k < |w| :: w[k] == '0'
  {
    hide Bits, Groups, Letters, Indices, Encoded, Spells, Holds, InAlphabet;
    EncodedBits(bytes);
    var used, text := Bits(bytes, 8), Encoded(bytes);
    var w := Completed(used);
    BytesFit(bytes);
    BitsShape(bytes, 8);
    LettersSpell(text);
    CompletedShape(used);
    BytesAreHeld(w);
    GroupsOfBits(bytes, 8, Repeat('0', (5 - |used| % 5) % 5));
  }

  /**
   What a text decodes to. Before its final run of `=` it may have white space, which does not count,
   and letters of either case; of their bits, five to a letter, every eight are a byte. Any other
   character is an error.
   */
  lemma DecodingByBits(up: CaseMap, body: string, padding: nat)
    requires body == "" || body[|body| - 1] != '='
    ensures
      var d, n := Decoded(up, body + Repeat('=', padding)), MapCase(up, RemoveSpaces(body));
      && (d.None? <==> exists i | 0 <= i < |n| :: n[i] !in LETTERS)
      && (d.Some? ==> exists w :: Spells(w, n) && Holds(w, d.value) && |d.value| == |w| / 8)
  {
    hide Bits, Groups, Indices, Spells, Holds, MapCase, RemoveSpaces;
    var n := MapCase(up, RemoveSpaces(body));
    StripPaddingOfPadded(body, padding);
    assert StripPadding(body) == body;
    AlphabetSpelled();
    if InAlphabet(n) {
      LettersSpell(n);
      LettersOfIndices(n);
      BitsShape(Indices(n), 5);
      BytesAreHeld(Bits(Indices(n), 5));
    }
  }
}
