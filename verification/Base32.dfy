/** The base-32 codec of secrets (RFC 4648, section 6), at the level of bits written as text. */
module Base32 {
  import opened Options
  import opened Seqs
  import opened Text

  type Byte = x: int | 0 <= x < 256

  // ----- Bits -----

  /** Each number in binary, padded to `width` digits. */
  function Fields(values: seq<nat>, width: nat): seq<string> {
    seq(|values|, i requires 0 <= i < |values| => PadStart(Numeral(values[i], 2), width, '0'))
  }

  function Values(fields: seq<string>): seq<nat> {
    seq(|fields|, i requires 0 <= i < |fields| => Parse(fields[i], 2))
  }

  function Bits(values: seq<nat>, width: nat): string {
    Flatten(Fields(values, width))
  }

  /** Whole groups of `width` bits as numbers. */
  function Groups(bits: string, width: nat): seq<nat>
    requires 1 <= width
  {
    Values(Chunks(bits, width))
  }

  ghost predicate Fits(values: seq<nat>, width: nat) {
    forall i | 0 <= i < |values| :: values[i] < Power(2, width)
  }

  ghost predicate AreFields(fields: seq<string>, width: nat) {
    forall i | 0 <= i < |fields| :: |fields[i]| == width && DigitsBelow(fields[i], 2)
  }

  lemma ValuesOfFields(values: seq<nat>, width: nat)
    requires 1 <= width && Fits(values, width)
    ensures AreFields(Fields(values, width), width) && Values(Fields(values, width)) == values
  {
    forall i | 0 <= i < |values|
      ensures |Fields(values, width)[i]| == width && DigitsBelow(Fields(values, width)[i], 2)
      ensures Values(Fields(values, width))[i] == values[i]
    {
      PaddedNumeral(values[i], 2, width);
    }
  }

  lemma FieldsOfValues(fields: seq<string>, width: nat)
    requires 1 <= width && AreFields(fields, width)
    ensures Fits(Values(fields), width) && Fields(Values(fields), width) == fields
  {
    forall i | 0 <= i < |fields|
      ensures Values(fields)[i] < Power(2, width) && Fields(Values(fields), width)[i] == fields[i]
    {
      ParseBound(fields[i], 2);
      PaddedParse(fields[i], 2);
    }
  }

  lemma {:induction false} FlattenedDigits(fields: seq<string>, width: nat)
    requires AreFields(fields, width)
    ensures DigitsBelow(Flatten(fields), 2)
  {
    if fields != [] {
      FlattenedDigits(fields[..|fields| - 1], width);
    }
  }

  lemma BitsShape(values: seq<nat>, width: nat)
    requires 1 <= width && Fits(values, width)
    ensures |Bits(values, width)| == width * |values| && DigitsBelow(Bits(values, width), 2)
  {
    ValuesOfFields(values, width);
    FlattenLength(Fields(values, width), width);
    FlattenedDigits(Fields(values, width), width);
  }

  lemma {:induction false} ChunksAreFields(bits: string, width: nat)
    requires 1 <= width && DigitsBelow(bits, 2)
    ensures AreFields(Chunks(bits, width), width)
    decreases |bits|
  {
    if width <= |bits| {
      ChunksAreFields(bits[width..], width);
    }
  }

  /** Writing the groups back gives the bits, up to what was left over. */
  lemma BitsOfGroups(bits: string, width: nat)
    requires 1 <= width && DigitsBelow(bits, 2)
    ensures
      var n := |Bits(Groups(bits, width), width)|;
      && n == width * |Groups(bits, width)| && n <= |bits| < n + width
      && Fits(Groups(bits, width), width) && Bits(Groups(bits, width), width) == bits[..n]
  {
    ChunksAreFields(bits, width);
    FieldsOfValues(Chunks(bits, width), width);
    FlattenOfChunks(bits, width);
    BitsShape(Groups(bits, width), width);
  }

  /** Grouping written numbers gives them back, whatever incomplete group follows. */
  lemma GroupsOfBits(values: seq<nat>, width: nat, tail: string)
    requires 1 <= width && Fits(values, width) && |tail| < width
    ensures Groups(Bits(values, width) + tail, width) == values
  {
    ValuesOfFields(values, width);
    ChunksOfFlatten(Fields(values, width), width, tail);
  }

  // ----- Encoding -----

  /** `s.indexOf(c)` */
  function IndexIn(s: string, c: char): (i: int)
    ensures if c in s then 0 <= i < |s| && s[i] == c && c !in s[..i] else i == -1
  {
    if s == "" then -1
    else if s[0] == c then 0
    else
      var i := IndexIn(s[1..], c);
      if i == -1 then -1 else i + 1
  }

  function Letter(v: nat): char
    requires v < 32
  {
    if v < 26 then ('A' as int + v) as char else ('2' as int + v - 26) as char
  }

  function Alphabet(): string {
    seq(32, v requires 0 <= v < 32 => Letter(v))
  }

  lemma AlphabetSpelled()
    ensures Alphabet() == "ABCDEFGHIJKLMNOPQRSTUVWXYZ234567"
  {
    assert |"ABCDEFGHIJKLMNOPQRSTUVWXYZ234567"| == 32;
  }

  lemma IndexInAlphabet(v: nat)
    requires v < 32
    ensures IndexIn(Alphabet(), Alphabet()[v]) == v
  {
    var i := IndexIn(Alphabet(), Alphabet()[v]);
    assert Letter(i) == Letter(v);
  }

  /** The characters that stand for groups of five bits. */
  function Letters(values: seq<nat>): string {
    seq(|values|, i requires 0 <= i < |values| => if values[i] < 32 then Alphabet()[values[i]] else '?')
  }

  /** The bits followed by the zeros that complete the last group of five. */
  function Completed(bits: string): string {
    bits + Repeat('0', (5 - |bits| % 5) % 5)
  }

  /** The text of a byte sequence. */
  function Encoded(bytes: seq<Byte>): string {
    Letters(Groups(Completed(Bits(bytes, 8)), 5))
  }

  lemma BitsOfOneMore(values: seq<nat>, v: nat, width: nat)
    ensures Bits(values + [v], width) == Bits(values, width) + PadStart(Numeral(v, 2), width, '0')
  {
    var f := Fields(values + [v], width);
    assert f[..|f| - 1] == Fields(values, width);
  }

  lemma GroupsFromHere(bits: string, index: nat, width: nat)
    requires 1 <= width && index + width <= |bits|
    ensures Groups(bits[index..], width)
      == [Parse(bits[index..index + width], 2)] + Groups(bits[index + width..], width)
  {
    assert bits[index..][..width] == bits[index..index + width];
    assert bits[index..][width..] == bits[index + width..];
  }

  lemma PowersOfTwo()
    ensures Power(2, 5) == 32 && Power(2, 8) == 256
  {
    assert Power(2, 2) == 4;
    assert Power(2, 4) == 16;
    assert Power(2, 6) == 64;
  }

  method JoinBits(bytes: seq<Byte>) returns (bits: string)
    ensures bits == Bits(bytes, 8)
  {
    bits := "";
    for i := 0 to |bytes|
      invariant bits == Bits(bytes[..i], 8)
    {
      bits := bits + PadStart(Numeral(bytes[i], 2), 8, '0');
      BitsOfOneMore(bytes[..i], bytes[i], 8);
      assert bytes[..i + 1] == bytes[..i] + [bytes[i]];
    }
    assert bytes[..|bytes|] == bytes;
  }

  /** The letters still to write at an index. */
  function LettersFrom(all: string, index: nat): string
    requires index <= |all|
  {
    Letters(Groups(all[index..], 5))
  }

  lemma ChunkOfFive(bits: string, index: nat)
    requires DigitsBelow(bits, 2) && index % 5 == 0 && index < |bits|
    ensures
      var all := Completed(bits);
      var chunk := PadEnd(bits[index..if index + 5 < |bits| then index + 5 else |bits|], 5, '0');
      && index + 5 <= |all| && Parse(chunk, 2) < 32
      && LettersFrom(all, index) == [Alphabet()[Parse(chunk, 2)]] + LettersFrom(all, index + 5)
  {
    var all := Completed(bits);
    var chunk := PadEnd(bits[index..if index + 5 < |bits| then index + 5 else |bits|], 5, '0');
    assert index + 5 <= |all|;
    assert chunk == all[index..index + 5];
    ParseBound(chunk, 2);
    PowersOfTwo();
    GroupsFromHere(all, index, 5);
  }

  lemma NoLettersLeft(bits: string, index: nat)
    requires index % 5 == 0 && |bits| <= index <= |Completed(bits)|
    ensures LettersFrom(Completed(bits), index) == ""
  {
  }

  method JoinLetters(bits: string) returns (output: string)
    requires DigitsBelow(bits, 2)
    ensures output == LettersFrom(Completed(bits), 0)
  {
    hide LettersFrom, Completed, Parse;
    output := "";
    ghost var all := Completed(bits);
    var index := 0;
    while index < |bits|
      invariant index % 5 == 0 && index <= |all|
      invariant output + LettersFrom(all, index) == LettersFrom(all, 0)
    {
      ChunkOfFive(bits, index);
      var chunk := PadEnd(bits[index..if index + 5 < |bits| then index + 5 else |bits|], 5, '0');
      output := output + [Alphabet()[Parse(chunk, 2)]];
      index := index + 5;
    }
    NoLettersLeft(bits, index);
  }

  method Encode(bytes: seq<Byte>) returns (output: string)
    ensures output == Encoded(bytes)
  {
    var bits := JoinBits(bytes);
    PowersOfTwo();
    BitsShape(bytes, 8);
    output := JoinLetters(bits);
    assert Completed(bits)[0..] == Completed(bits);
  }

  // ----- Decoding -----

  function StripPadding(s: string): string {
    if s != "" && s[|s| - 1] == '=' then StripPadding(s[..|s| - 1]) else s
  }

  function Normalized(up: CaseMap, s: string): string {
    MapCase(up, RemoveSpaces(StripPadding(s)))
  }

  predicate InAlphabet(s: string) {
    forall i | 0 <= i < |s| :: s[i] in Alphabet()
  }

  function Indices(s: string): seq<nat>
    requires InAlphabet(s)
  {
    seq(|s|, i requires 0 <= i < |s| => IndexIn(Alphabet(), s[i]))
  }

  /** The bytes of a text, if every character that counts is in the alphabet. */
  function Decoded(up: CaseMap, s: string): Option<seq<nat>> {
    var n := Normalized(up, s);
    if InAlphabet(n) then Some(Groups(Bits(Indices(n), 5), 8)) else None
  }

  method Decode(up: CaseMap, value: string) returns (r: Option<seq<nat>>)
    ensures r == Decoded(up, value)
  {
    hide Numeral, Parse, Normalized;
    var normalized := Normalized(up, value);
    var bits := "";
    for i := 0 to |normalized|
      invariant InAlphabet(normalized[..i]) && bits == Bits(Indices(normalized[..i]), 5)
    {
      var valueIndex := IndexIn(Alphabet(), normalized[i]);
      if valueIndex == -1 {
        return None;
      }
      assert Indices(normalized[..i + 1]) == Indices(normalized[..i]) + [valueIndex];
      BitsOfOneMore(Indices(normalized[..i]), valueIndex, 5);
      bits := bits + PadStart(Numeral(valueIndex, 2), 5, '0');
    }
    assert normalized[..|normalized|] == normalized;
    var bytes := WholeBytes(bits);
    return Some(bytes);
  }

  method WholeBytes(bits: string) returns (bytes: seq<nat>)
    ensures bytes == Groups(bits, 8)
  {
    bytes := [];
    var index := 0;
    assert bits[0..] == bits;
    while index + 8 <= |bits|
      invariant index <= |bits|
      invariant bytes + Groups(bits[index..], 8) == Groups(bits, 8)
    {
      bytes := bytes + [Parse(bits[index..index + 8], 2)];
      GroupsFromHere(bits, index, 8);
      index := index + 8;
    }
  }

  // ----- The codec -----

  lemma IndicesOfLetters(values: seq<nat>)
    requires Fits(values, 5)
    ensures InAlphabet(Letters(values)) && Indices(Letters(values)) == values
  {
    PowersOfTwo();
    forall i | 0 <= i < |values|
      ensures Letters(values)[i] in Alphabet() && IndexIn(Alphabet(), Letters(values)[i]) == values[i]
    {
      IndexInAlphabet(values[i]);
    }
  }

  lemma LettersOfIndices(s: string)
    requires InAlphabet(s)
    ensures Letters(Indices(s)) == s && Fits(Indices(s), 5)
  {
    PowersOfTwo();
    forall i | 0 <= i < |s| ensures Indices(s)[i] < 32 && Alphabet()[Indices(s)[i]] == s[i] {
    }
  }

  lemma CompletedLength(n: nat)
    ensures n + (5 - n % 5) % 5 == 5 * ((n + 4) / 5)
  {
  }

  lemma CompletedShape(bits: string)
    requires DigitsBelow(bits, 2)
    ensures DigitsBelow(Completed(bits), 2) && |Completed(bits)| == 5 * ((|bits| + 4) / 5)
  {
    CompletedLength(|bits|);
  }

  lemma BytesFit(bytes: seq<Byte>)
    ensures Fits(bytes, 8)
  {
    PowersOfTwo();
  }

  /** Bits that fill groups of five are written by as many letters, and can be read back. */
  lemma LettersCarryBits(all: string)
    requires DigitsBelow(all, 2) && |all| % 5 == 0
    ensures
      var text := Letters(Groups(all, 5));
      InAlphabet(text) && Bits(Indices(text), 5) == all && 5 * |text| == |all|
  {
    BitsOfGroups(all, 5);
    IndicesOfLetters(Groups(all, 5));
    assert all[..|all|] == all;
  }

  /** The text stands for the bits of the bytes and fewer than five zeros. */
  lemma EncodedBits(bytes: seq<Byte>)
    ensures
      var text := Encoded(bytes);
      && InAlphabet(text)
      && Bits(Indices(text), 5) == Completed(Bits(bytes, 8))
      && |text| == (8 * |bytes| + 4) / 5
  {
    hide Bits, Groups, Letters, Indices, InAlphabet, Completed, Power;
    BytesFit(bytes);
    BitsShape(bytes, 8);
    CompletedShape(Bits(bytes, 8));
    LettersCarryBits(Completed(Bits(bytes, 8)));
  }

  lemma {:induction false} NothingToNormalize(up: CaseMap, s: string)
    requires Uppercases(up) && InAlphabet(s)
    ensures Normalized(up, s) == s
  {
    assert StripPadding(s) == s;
    UpperTextUnchanged(up, s);
  }

  lemma {:induction false} UpperTextUnchanged(up: CaseMap, s: string)
    requires Uppercases(up) && InAlphabet(s)
    ensures RemoveSpaces(s) == s && MapCase(up, s) == s
  {
    if s != "" {
      UpperTextUnchanged(up, s[1..]);
    }
  }

  /** Decoding undoes encoding, for byte sequences of every length. */
  lemma DecodeUndoesEncode(up: CaseMap, bytes: seq<Byte>)
    requires Uppercases(up)
    ensures Decoded(up, Encoded(bytes)) == Some(bytes) && |Encoded(bytes)| == (8 * |bytes| + 4) / 5
  {
    EncodedBits(bytes);
    NothingToNormalize(up, Encoded(bytes));
    PowersOfTwo();
    BitsShape(bytes, 8);
    GroupsOfBits(bytes, 8, Repeat('0', (5 - |Bits(bytes, 8)| % 5) % 5));
  }

  function LowerAll(s: string): string {
    seq(|s|, i requires 0 <= i < |s| => AsciiLower(s[i]))
  }

  lemma {:induction false} StripPaddingOfLower(s: string)
    ensures StripPadding(LowerAll(s)) == LowerAll(StripPadding(s))
  {
    if s != "" && s[|s| - 1] == '=' {
      StripPaddingOfLower(s[..|s| - 1]);
      assert LowerAll(s)[..|s| - 1] == LowerAll(s[..|s| - 1]);
    }
  }

  lemma {:induction false} UpperOfLower(up: CaseMap, s: string)
    requires Uppercases(up)
    ensures MapCase(up, RemoveSpaces(LowerAll(s))) == MapCase(up, RemoveSpaces(s))
  {
    if s != "" {
      UpperOfLower(up, s[1..]);
      assert LowerAll(s)[1..] == LowerAll(s[1..]);
      var c := s[0];
      assert IsSpace(AsciiLower(c)) == IsSpace(c);
      assert up(AsciiLower(c)) == up(c);
      assert LowerAll(s)[0] == AsciiLower(c);
      var l, r := RemoveSpaces(LowerAll(s[1..])), RemoveSpaces(s[1..]);
      if !IsSpace(c) {
        assert ([AsciiLower(c)] + l)[1..] == l;
        assert ([c] + r)[1..] == r;
      } else {
        assert "" + l == l && "" + r == r;
      }
    }
  }

  lemma {:induction false} StripPaddingOfPadded(s: string, count: nat)
    ensures StripPadding(s + Repeat('=', count)) == StripPadding(s)
  {
    var t := s + Repeat('=', count);
    if count == 0 {
      assert t == s;
    } else {
      assert t[..|t| - 1] == s + Repeat('=', count - 1);
      StripPaddingOfPadded(s, count - 1);
    }
  }

  /** Neither the case of the letters nor a final run of `=` changes what a text decodes to. */
  lemma CaseAndPaddingDoNotMatter(up: CaseMap, s: string, count: nat)
    requires Uppercases(up)
    ensures Decoded(up, LowerAll(s)) == Decoded(up, s)
    ensures Decoded(up, s + Repeat('=', count)) == Decoded(up, s)
  {
    StripPaddingOfLower(s);
    UpperOfLower(up, StripPadding(s));
    StripPaddingOfPadded(s, count);
  }

  /** The bits that do not fill a byte. */
  function Leftover(bits: string): string {
    bits[|bits| - |bits| % 8..]
  }

  lemma UsedAndLeftover(bits: string)
    requires DigitsBelow(bits, 2)
    ensures bits == Bits(Groups(bits, 8), 8) + Leftover(bits)
    ensures |Bits(Groups(bits, 8), 8)| == 8 * |Groups(bits, 8)|
    ensures Fits(Groups(bits, 8), 8)
  {
    BitsOfGroups(bits, 8);
    var n := |Bits(Groups(bits, 8), 8)|;
    assert n == |bits| - |bits| % 8;
    assert bits == bits[..n] + bits[n..];
  }

  lemma IndicesLength(s: string)
    requires InAlphabet(s)
    ensures |Indices(s)| == |s|
  {
  }

  lemma CanonicalIfZeros(s: string, bytes: seq<Byte>, rest: string)
    requires InAlphabet(s) && Bits(Indices(s), 5) == Bits(bytes, 8) + rest
    requires |rest| < 5 && rest == Repeat('0', |rest|)
    ensures Encoded(bytes) == s
  {
    hide Bits, Groups, Letters, Indices, InAlphabet;
    LettersOfIndices(s);
    BitsShape(Indices(s), 5);
    IndicesLength(s);
    ZerosComplete(|Bits(bytes, 8)|, |rest|, |s|);
    GroupsOfBits(Indices(s), 5, "");
    assert Bits(Indices(s), 5) + "" == Bits(Indices(s), 5);
  }

  lemma ZerosIfCanonical(s: string, bytes: seq<Byte>, rest: string)
    requires InAlphabet(s) && Bits(Indices(s), 5) == Bits(bytes, 8) + rest
    requires Encoded(bytes) == s
    ensures |rest| < 5 && rest == Repeat('0', |rest|)
  {
    EncodedBits(bytes);
    var used := Bits(bytes, 8);
    var zeros := Repeat('0', (5 - |used| % 5) % 5);
    assert (used + rest)[|used|..] == (used + zeros)[|used|..];
  }

  /** Fewer than five bits are left over, and they are zeros. */
  predicate EndsInZeros(bits: string) {
    |Leftover(bits)| < 5 && Leftover(bits) == Repeat('0', |Leftover(bits)|)
  }

  lemma CanonicalLetters(s: string)
    requires InAlphabet(s)
    ensures
      var bits := Bits(Indices(s), 5);
      var bytes := Groups(bits, 8);
      && (forall i | 0 <= i < |bytes| :: bytes[i] < 256)
      && (Encoded(bytes) == s <==> EndsInZeros(bits))
  {
    var bits := Bits(Indices(s), 5);
    LettersOfIndices(s);
    BitsShape(Indices(s), 5);
    UsedAndLeftover(bits);
    assert Power(2, 8) == 256 by { PowersOfTwo(); }
    var bytes := Groups(bits, 8);
    if Encoded(bytes) == s {
      ZerosIfCanonical(s, bytes, Leftover(bits));
    }
    if EndsInZeros(bits) {
      CanonicalIfZeros(s, bytes, Leftover(bits));
    }
  }

  lemma DecodedAreBytes(up: CaseMap, s: string)
    ensures Decoded(up, s).Some? ==> forall i | 0 <= i < |Decoded(up, s).value| :: Decoded(up, s).value[i] < 256
  {
    var n := Normalized(up, s);
    if InAlphabet(n) { CanonicalLetters(n); }
  }

  /** The text is spelled as the encoder would spell it: in capitals, without spaces or padding, ending in zeros. */
  predicate Canonical(s: string) {
    InAlphabet(s) && EndsInZeros(Bits(Indices(s), 5))
  }

  /**
   For every text, whatever its case, spaces and padding: encoding what it decodes to gives
   its normal form exactly if that is canonical, and gives the text itself exactly if the
   text is.
   */
  lemma CanonicalTexts(up: CaseMap, s: string)
    requires Uppercases(up)
    ensures
      var d, n := Decoded(up, s), Normalized(up, s);
      && (d.Some? ==> forall i | 0 <= i < |d.value| :: d.value[i] < 256)
      && (d.Some? && Encoded(d.value) == n <==> Canonical(n))
      && (d.Some? && Encoded(d.value) == s <==> Canonical(s))
  {
    var d, n := Decoded(up, s), Normalized(up, s);
    DecodedAreBytes(up, s);
    if InAlphabet(n) { CanonicalLetters(n); }
    if InAlphabet(s) { NothingToNormalize(up, s); }
    if d.Some? { EncodedBits(d.value); }
    hide Bits, Groups, Letters, Indices, InAlphabet, Normalized, Encoded, EndsInZeros;
  }

  lemma ZerosComplete(n: nat, k: nat, m: nat)
    requires k < 5 && n + k == 5 * m
    ensures k == (5 - n % 5) % 5
  {
  }
}
