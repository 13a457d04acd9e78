/**
 The one-time codes by their standards (sections 5.2 and 5.3 of RFC 4226, section 4.2 of RFC 6238),
 with every byte and every digit written out, and the codes computed held against them.
 */
module TotpValues {
  import opened Base32
  import opened Options
  import opened Text
  import opened Totp

  function FourOf(a: int, b: int, c: int, d: int): int {
    ((a * 256 + b) * 256 + c) * 256 + d
  }

  /** Eight bytes, the first the highest, hold a time step. */
  ghost predicate IsCounterOf(m: seq<Byte>, step: int) {
    && |m| == 8
    && step == FourOf(m[0], m[1], m[2], m[3]) * 0x1_0000_0000 + FourOf(m[4], m[5], m[6], m[7])
  }

  function DigitOf(c: char): int {
    c as int - 48
  }

  /** Six decimal digits. */
  function SixOf(s: string): int
    requires |s| == 6
  {
    ((((DigitOf(s[0]) * 10 + DigitOf(s[1])) * 10 + DigitOf(s[2])) * 10 + DigitOf(s[3])) * 10 + DigitOf(s[4])) * 10
    + DigitOf(s[5])
  }

  /** Six digits write the low 31 bits of four bytes of the digest, modulo a million. */
  ghost predicate IsCodeFor(code: string, digest: seq<Byte>)
    requires |digest| == 20
  {
    var o := digest[19] % 16;
    && |code| == 6 && (forall i | 0 <= i < 6 :: 0 <= DigitOf(code[i]) <= 9)
    && SixOf(code) == FourOf(digest[o] % 128, digest[o + 1], digest[o + 2], digest[o + 3]) % 1_000_000
  }

  lemma EightByteValue(m: seq<Byte>)
    requires |m| == 8
    ensures IsCounterOf(m, FromBytes(m))
  {
    FourMoreBytes(m[..4], m[4..]);
    FourBytes(m[..4]);
    assert m == m[..4] + m[4..];
    hide FromBytes;
  }

  lemma SixDigitValue(code: string)
    requires IsSixDigits(code)
    ensures Parse(code, 10) == SixOf(code) && DigitsBelow(code, 10)
  {
    hide Parse;
    FiveDigits(code[..5], 10);
    ParseOneMore(code[..5], code[5], 10);
    assert code == code[..5] + [code[5]];
  }

  lemma SixDigitsDiffer(code: string, other: string)
    requires IsSixDigits(code) && IsSixDigits(other) && SixOf(code) == SixOf(other)
    ensures code == other
  {
    hide Parse, SixOf;
    SixDigitValue(code);
    SixDigitValue(other);
    ParseInjective(code, other, 10);
  }

  lemma LowWord(digest: seq<Byte>, o: nat)
    requires |digest| == 20 && o <= 15
    ensures FromBytes(digest[o..o + 4]) % 0x8000_0000
      == FourOf(digest[o] % 128, digest[o + 1], digest[o + 2], digest[o + 3])
  {
    hide FromBytes;
    FourBytes(digest[o..o + 4]);
    WordWithoutTopBit(digest[o], digest[o + 1], digest[o + 2], digest[o + 3]);
  }

  lemma ComputedCode(digest: seq<Byte>)
    requires |digest| == 20
    ensures IsCodeFor(CodeOf(digest), digest) && IsSixDigits(CodeOf(digest))
  {
    hide CodeOf, Parse, FromBytes, SixOf, FourOf;
    CodeIsSixDigits(digest);
    LowWord(digest, digest[19] % 16);
    SixDigitValue(CodeOf(digest));
  }

  /** The digest has one code. */
  lemma CodeIsTheOne(code: string, digest: seq<Byte>)
    requires |digest| == 20
    ensures IsCodeFor(code, digest) <==> code == CodeOf(digest)
  {
    hide CodeOf, SixOf, FourOf;
    ComputedCode(digest);
    if IsCodeFor(code, digest) {
      assert forall i | 0 <= i < 6 :: 0 <= DigitOf(code[i]) <= 9;
      SixDigitsDiffer(code, CodeOf(digest));
    }
  }

  /**
   What a secret's code of a time step is: for the counter of that very step, the code of the digest.
   A secret that does not decode, and a step that eight bytes cannot hold, throw.
   */
  lemma CodeOfTheStep(hmac: Hmac, up: CaseMap, secret: string, step: int)
    requires IsSha1(hmac)
    ensures
      var key, r := Decoded(up, secret), Totp.Totp(hmac, up, secret, step);
      && (key.None? <==> r == InvalidSecret)
      && (key.Some? && !(0 <= step < 0x1_0000_0000_0000_0000) <==> r == CounterOutOfRange)
      && (r.Ok? ==> forall m: seq<Byte> | IsCounterOf(m, step) :: IsCodeFor(r.value, hmac(key.value, m)))
      && (r.Ok? ==> exists m: seq<Byte> :: IsCounterOf(m, step))
  {
    var key, r := Decoded(up, secret), Totp.Totp(hmac, up, secret, step);
    hide Decoded, CodeOf, IsCodeFor, IsCounterOf;
    if r.Ok? {
      EightByteValue(Counter(step));
      CodeIsTheOne(r.value, hmac(key.value, Counter(step)));
      forall m: seq<Byte> | IsCounterOf(m, step) ensures m == Counter(step) {
        CounterIsTheOne(m, step);
      }
    }
  }

  lemma CounterIsTheOne(m: seq<Byte>, step: int)
    requires IsCounterOf(m, step) && InRange(step)
    ensures m == Counter(step)
  {
    EightByteValue(m);
    BigEndianIsUnique(m, Counter(step));
  }

  /** A code of a secret, for a time step. */
  ghost predicate IsCodeOfStep(hmac: Hmac, key: seq<nat>, step: int, code: string)
    requires IsSha1(hmac)
  {
    exists m: seq<Byte> :: IsCounterOf(m, step) && IsCodeFor(code, hmac(key, m))
  }

  lemma MatchesIffCode(hmac: Hmac, up: CaseMap, secret: string, code: string, step: int)
    requires IsSha1(hmac) && Decoded(up, secret).Some?
    ensures Matches(hmac, up, secret, code, step) <==> IsCodeOfStep(hmac, Decoded(up, secret).value, step, code)
  {
    var key := Decoded(up, secret).value;
    hide Decoded, IsCodeFor, CodeOf;
    CodeOfTheStep(hmac, up, secret, step);
    var r := Totp.Totp(hmac, up, secret, step);
    if IsCodeOfStep(hmac, key, step, code) {
      var m: seq<Byte> :| IsCounterOf(m, step) && IsCodeFor(code, hmac(key, m));
      CodeIsTheOne(code, hmac(key, m));
      CounterInRange(m, step);
      CodeIsTheOne(r.value, hmac(key, m));
    }
    hide IsCounterOf;
  }

  lemma CounterInRange(m: seq<Byte>, step: int)
    requires IsCounterOf(m, step)
    ensures 0 <= step < 0x1_0000_0000_0000_0000
  {
  }

  /**
   Which codes are accepted, at a moment in the time step `step` of 30 seconds: with the spaces
   removed, six digits that are the secret's code of that step, the one before or the one after.
   */
  lemma AcceptedCodes(hmac: Hmac, up: CaseMap, secret: string, code: string, now: int, step: int)
    requires IsSha1(hmac) && step * 30_000 <= now < (step + 1) * 30_000
    ensures
      VerifyAt(hmac, up, secret, code, now) == Ok(true) <==>
        && 1 <= step && Decoded(up, secret).Some?
        && exists s | step - 1 <= s <= step + 1 ::
             IsCodeOfStep(hmac, Decoded(up, secret).value, s, RemoveSpaces(code))
  {
    hide Decoded, VerifyAt, Matches, IsCodeOfStep;
    var typed := RemoveSpaces(code);
    assert TimeStep(now) == step;
    AcceptedIffCodeOfANearbyStep(hmac, up, secret, code, now);
    if Decoded(up, secret).Some? {
      forall s ensures Matches(hmac, up, secret, typed, s) <==>
        IsCodeOfStep(hmac, Decoded(up, secret).value, s, typed)
      {
        MatchesIffCode(hmac, up, secret, typed, s);
      }
      forall s | IsCodeOfStep(hmac, Decoded(up, secret).value, s, typed) ensures IsSixDigits(typed) {
        CodesAreDigits(hmac, Decoded(up, secret).value, s, typed);
      }
    }
  }

  lemma CodesAreDigits(hmac: Hmac, key: seq<nat>, step: int, code: string)
    requires IsSha1(hmac) && IsCodeOfStep(hmac, key, step, code)
    ensures IsSixDigits(code)
  {
    var m: seq<Byte> :| IsCounterOf(m, step) && IsCodeFor(code, hmac(key, m));
    assert forall i | 0 <= i < 6 :: 0 <= DigitOf(code[i]) <= 9;
  }
}
