/** Time-based one-time codes (RFC 4226, section 5, and RFC 6238, section 4). */
module Totp {
  import opened Base32
  import opened Options
  import opened Text

  /** SHA-1 HMAC is not interpreted: any function of key and message with a digest of 20 bytes. */
  type Hmac = (seq<nat>, seq<Byte>) -> seq<Byte>

  ghost predicate IsSha1(hmac: Hmac) {
    forall key, message :: |hmac(key, message)| == 20
  }

  const TWO_32 := 0x1_0000_0000

  // ----- The counter -----

  /** Big-endian value of bytes. */
  function FromBytes(b: seq<Byte>): nat {
    if b == [] then 0 else FromBytes(b[..|b| - 1]) * 256 + b[|b| - 1] as int
  }

  /** `writeUInt32BE`; the caller has checked the range. */
  method WriteUInt32BE(buffer: array<Byte>, value: nat, offset: nat)
    requires value < TWO_32 && offset + 4 <= buffer.Length
    modifies buffer
    ensures buffer[..] == old(buffer[..offset]) + UInt32Bytes(value) + old(buffer[offset + 4..])
  {
    buffer[offset] := value / 0x100_0000;
    buffer[offset + 1] := value / 0x1_0000 % 0x100;
    buffer[offset + 2] := value / 0x100 % 0x100;
    buffer[offset + 3] := value % 0x100;
  }

  function UInt32Bytes(value: nat): (b: seq<Byte>)
    requires value < TWO_32
    ensures |b| == 4
  {
    [value / 0x100_0000, value / 0x1_0000 % 0x100, value / 0x100 % 0x100, value % 0x100]
  }

  function Word(a: int, b: int, c: int, d: int): int {
    ((a * 256 + b) * 256 + c) * 256 + d
  }

  lemma OneMoreByte(b: seq<Byte>, x: Byte)
    ensures FromBytes(b + [x]) == FromBytes(b) * 256 + x as int
  {
    assert (b + [x])[..|b|] == b;
  }

  lemma FourMoreBytes(a: seq<Byte>, b: seq<Byte>)
    requires |b| == 4
    ensures FromBytes(a + b) == FromBytes(a) * TWO_32 + Word(b[0], b[1], b[2], b[3])
  {
    OneMoreByte(a, b[0]);
    OneMoreByte(a + [b[0]], b[1]);
    OneMoreByte(a + [b[0]] + [b[1]], b[2]);
    OneMoreByte(a + [b[0]] + [b[1]] + [b[2]], b[3]);
    assert a + b == a + [b[0]] + [b[1]] + [b[2]] + [b[3]];
  }

  lemma FourBytes(b: seq<Byte>)
    requires |b| == 4
    ensures FromBytes(b) == Word(b[0], b[1], b[2], b[3])
  {
    FourMoreBytes([], b);
    assert [] + b == b;
  }

  lemma TwoBytesOff(value: nat)
    ensures value / 0x1_0000 == value / 0x100 / 0x100
  {
    var p := value / 0x100;
    assert value == 0x1_0000 * (p / 0x100) + (0x100 * (p % 0x100) + value % 0x100);
  }

  lemma ThreeBytesOff(value: nat)
    ensures value / 0x100_0000 == value / 0x1_0000 / 0x100
  {
    var p := value / 0x1_0000;
    assert value == 0x100_0000 * (p / 0x100) + (0x1_0000 * (p % 0x100) + value % 0x1_0000);
  }

  lemma UInt32Value(value: nat)
    requires value < TWO_32
    ensures FromBytes(UInt32Bytes(value)) == value
  {
    FourBytes(UInt32Bytes(value));
    TwoBytesOff(value);
    ThreeBytesOff(value);
  }

  lemma EightBytes(a: seq<Byte>, b: seq<Byte>)
    requires |b| == 4
    ensures FromBytes(a + b) == FromBytes(a) * TWO_32 + FromBytes(b)
  {
    FourMoreBytes(a, b);
    FourBytes(b);
  }

  predicate InRange(step: int) {
    0 <= step < TWO_32 * TWO_32
  }

  /** The two 32-bit writes, `floor(step / 2^32)` and `step >>> 0`; out of range, the first one throws. */
  method CounterBytes(step: int) returns (r: Option<seq<Byte>>)
    ensures r.Some? <==> InRange(step)
    ensures r.Some? ==> |r.value| == 8 && FromBytes(r.value) == step
  {
    var high, low := step / TWO_32, step % TWO_32;
    if !(0 <= high < TWO_32) { return None; }
    var counter := new Byte[8](_ => 0);
    WriteUInt32BE(counter, high, 0);
    WriteUInt32BE(counter, low, 4);
    UInt32Value(high);
    UInt32Value(low);
    EightBytes(UInt32Bytes(high), UInt32Bytes(low));
    assert counter[..] == UInt32Bytes(high) + UInt32Bytes(low);
    return Some(counter[..]);
  }

  /** The counter is determined by its value, so the two writes are the big-endian form. */
  lemma {:induction false} BigEndianIsUnique(a: seq<Byte>, b: seq<Byte>)
    requires |a| == |b| && FromBytes(a) == FromBytes(b)
    ensures a == b
  {
    if a != [] {
      BigEndianIsUnique(a[..|a| - 1], b[..|b| - 1]);
      assert a == a[..|a| - 1] + [a[|a| - 1]] && b == b[..|b| - 1] + [b[|b| - 1]];
    }
  }

  function Counter(step: int): (b: seq<Byte>)
    requires InRange(step)
    ensures |b| == 8 && FromBytes(b) == step
  {
    UInt32Value(step / TWO_32);
    UInt32Value(step % TWO_32);
    EightBytes(UInt32Bytes(step / TWO_32), UInt32Bytes(step % TWO_32));
    UInt32Bytes(step / TWO_32) + UInt32Bytes(step % TWO_32)
  }

  // ----- Truncation -----

  /** Bitwise operators on non-negative numbers. */
  function BitOr(a: nat, b: nat): nat {
    if a == 0 then b else BitOr(a / 2, b / 2) * 2 + (if a % 2 == 1 || b % 2 == 1 then 1 else 0)
  }

  function BitAnd(a: nat, b: nat): nat {
    if a == 0 then 0 else BitAnd(a / 2, b / 2) * 2 + (if a % 2 == 1 && b % 2 == 1 then 1 else 0)
  }

  lemma OrOfEven(x: nat, b: nat)
    ensures BitOr(2 * x, b) == BitOr(x, b / 2) * 2 + b % 2
  {
  }

  lemma {:induction false} OrOfDisjoint(a: nat, b: nat, k: nat)
    requires b < Power(2, k)
    ensures BitOr(a * Power(2, k), b) == a * Power(2, k) + b
  {
    hide BitOr, Power;
    if k == 0 {
      PowerOfZero(2);
      OrZero(a);
      assert a * Power(2, 0) == a;
    } else {
      var p := Power(2, k - 1);
      PowerStep(2, k - 1);
      OrOfDisjoint(a, b / 2, k - 1);
      Doubled(a, p);
      OrOfEven(a * p, b);
    }
  }

  lemma Doubled(a: nat, p: nat)
    ensures a * (p * 2) == 2 * (a * p)
  {
  }

  lemma {:induction false} OrZero(a: nat)
    ensures BitOr(a, 0) == a
  {
    if a != 0 { OrZero(a / 2); }
  }

  lemma {:induction false} AndMask(a: nat, k: nat, mask: nat)
    requires mask + 1 == Power(2, k)
    ensures BitAnd(a, mask) == a % (mask + 1)
    decreases k
  {
    if a == 0 {
    } else if k == 0 {
      AndZero(a);
    } else {
      var q := Power(2, k - 1);
      assert mask / 2 + 1 == q && mask % 2 == 1;
      AndMask(a / 2, k - 1, mask / 2);
      HalfOfRemainder(a, q);
    }
  }

  lemma HalfOfRemainder(a: nat, q: nat)
    requires 1 <= q
    ensures a % (2 * q) == a / 2 % q * 2 + a % 2
  {
    var u, v, r, m := a / 2 / q, a / 2 % q, a % 2, 2 * q;
    DivisionSplits(a / 2, q);
    DoubledProduct(u, q, m);
    DivisionSplits(a, m);
    QuotientsAgree(u, a / m, 2 * v + r, a % m, m);
  }

  lemma DoubledProduct(u: nat, q: nat, m: nat)
    requires m == 2 * q
    ensures u * m == 2 * (u * q)
  {
  }

  lemma {:induction false} AndZero(a: nat)
    ensures BitAnd(a, 0) == 0
  {
    if a != 0 { AndZero(a / 2); }
  }

  function ShiftLeft(a: nat, k: nat): nat {
    a * Power(2, k)
  }

  /** Four bytes as the code combines them. */
  function Combined(a: nat, b: nat, c: nat, d: nat): nat {
    BitOr(BitOr(BitOr(
      ShiftLeft(BitAnd(a, 0x7f), 24), ShiftLeft(BitAnd(b, 0xff), 16)), ShiftLeft(BitAnd(c, 0xff), 8)), BitAnd(d, 0xff))
  }

  /** The four bytes from the offset that the low half of the last byte gives. */
  function Truncated(digest: seq<Byte>): nat
    requires |digest| == 20
  {
    FourBits(digest[19]);
    var offset := BitAnd(digest[19], 0x0f);
    Combined(digest[offset], digest[offset + 1], digest[offset + 2], digest[offset + 3])
  }

  lemma SmallPowers()
    ensures Power(2, 4) == 16 && Power(2, 7) == 128 && Power(2, 8) == 256
    ensures Power(2, 16) == 0x1_0000 && Power(2, 24) == 0x100_0000
  {
    assert Power(2, 2) == 4;
    assert Power(2, 6) == 64;
    assert Power(2, 10) == 1024;
    assert Power(2, 12) == 4096;
    assert Power(2, 14) == 0x4000;
    assert Power(2, 18) == 0x4_0000;
    assert Power(2, 20) == 0x10_0000;
    assert Power(2, 22) == 0x40_0000;
  }

  lemma OrOfShifted(a: nat, b: nat, c: nat, d: nat)
    requires a < 128 && b < 256 && c < 256 && d < 256
    ensures BitOr(BitOr(BitOr(ShiftLeft(a, 24), ShiftLeft(b, 16)), ShiftLeft(c, 8)), d) == Word(a, b, c, d)
  {
    SmallPowers();
    OrOfDisjoint(a, b * 0x1_0000, 24);
    OrOfDisjoint(a * 256 + b, c * 256, 16);
    OrOfDisjoint((a * 256 + b) * 256 + c, d, 8);
  }

  lemma CombinedIsWord(a: nat, b: nat, c: nat, d: nat)
    requires a < 256 && b < 256 && c < 256 && d < 256
    ensures Combined(a, b, c, d) == Word(a % 128, b, c, d)
  {
    hide BitAnd, BitOr, ShiftLeft;
    SevenBits(a);
    EightBits(b);
    EightBits(c);
    EightBits(d);
    OrOfShifted(a % 128, b, c, d);
  }

  /**
   Dynamic truncation: the offset always leaves four bytes inside the digest, and
   the result is their big-endian value without the top bit, so it never turns
   negative in 32-bit arithmetic.
   */
  lemma TruncationIsTheMaskedWord(digest: seq<Byte>)
    requires |digest| == 20
    ensures
      var offset := digest[19] % 16;
      && offset + 4 <= 20
      && Truncated(digest) == FromBytes(digest[offset..offset + 4]) % 0x8000_0000
      && Truncated(digest) < 0x8000_0000
  {
    FourBits(digest[19]);
    var offset := digest[19] % 16;
    var word := digest[offset..offset + 4];
    CombinedIsWord(word[0], word[1], word[2], word[3]);
    FourBytes(word);
    WordWithoutTopBit(word[0], word[1], word[2], word[3]);
  }

  lemma FourBits(b: nat)
    ensures BitAnd(b, 0x0f) == b % 16
  {
    SmallPowers();
    AndMask(b, 4, 0x0f);
  }

  lemma SevenBits(b: nat)
    ensures BitAnd(b, 0x7f) == b % 128
  {
    SmallPowers();
    AndMask(b, 7, 0x7f);
  }

  lemma EightBits(b: nat)
    ensures BitAnd(b, 0xff) == b % 256
  {
    SmallPowers();
    AndMask(b, 8, 0xff);
  }

  lemma WordWithoutTopBit(a: int, b: int, c: int, d: int)
    requires 0 <= a < 256 && 0 <= b < 256 && 0 <= c < 256 && 0 <= d < 256
    ensures Word(a, b, c, d) % 0x8000_0000 == Word(a % 128, b, c, d)
  {
    assert Word(a, b, c, d) == a / 128 * 0x8000_0000 + Word(a % 128, b, c, d);
  }

  // ----- Codes -----

  function CodeOf(digest: seq<Byte>): string
    requires |digest| == 20
  {
    PadStart(Numeral(Truncated(digest) % 1_000_000, 10), 6, '0')
  }

  /** A code is exactly six digits, of the truncated value modulo a million. */
  lemma CodeIsSixDigits(digest: seq<Byte>)
    requires |digest| == 20
    ensures
      var code := CodeOf(digest);
      && IsSixDigits(code)
      && Parse(code, 10) == FromBytes(digest[digest[19] % 16..digest[19] % 16 + 4]) % 0x8000_0000 % 1_000_000
  {
    TruncationIsTheMaskedWord(digest);
    assert Power(10, 2) == 100;
    assert Power(10, 4) == 10_000;
    assert Power(10, 6) == 1_000_000;
    PaddedNumeral(Truncated(digest) % 1_000_000, 10, 6);
  }

  predicate IsSixDigits(s: string) {
    |s| == 6 && forall i | 0 <= i < 6 :: IsDigit(s[i])
  }

  datatype Result<T> = Ok(value: T) | InvalidSecret | CounterOutOfRange

  /** The code of a time step; a bad secret and a counter that does not fit both throw. */
  function Totp(hmac: Hmac, up: CaseMap, secret: string, step: int): Result<string>
    requires IsSha1(hmac)
  {
    var key := Decoded(up, secret);
    if key.None? then InvalidSecret
    else if !InRange(step) then CounterOutOfRange
    else Ok(CodeOf(hmac(key.value, Counter(step))))
  }

  method ComputeTotp(hmac: Hmac, up: CaseMap, secret: string, step: int) returns (r: Result<string>)
    requires IsSha1(hmac)
    ensures r == Totp(hmac, up, secret, step)
  {
    var key := Decode(up, secret);
    if key.None? { return InvalidSecret; }
    var counter := CounterBytes(step);
    if counter.None? { return CounterOutOfRange; }
    BigEndianIsUnique(counter.value, Counter(step));
    var digest := hmac(key.value, counter.value);
    return Ok(CodeOf(digest));
  }

  // ----- Verification -----

  /** The time step of a moment in milliseconds. */
  function TimeStep(milliseconds: int): int {
    milliseconds / 30_000
  }

  /** Tries the steps before, at and after the present one, stopping at the first match. */
  function VerifyAt(hmac: Hmac, up: CaseMap, secret: string, code: string, now: int): Result<bool>
    requires IsSha1(hmac)
  {
    var normalized := RemoveSpaces(code);
    if !IsSixDigits(normalized) then Ok(false)
    else TryOffsets(hmac, up, secret, normalized, TimeStep(now), [-1, 0, 1])
  }

  function TryOffsets(hmac: Hmac, up: CaseMap, secret: string, code: string, step: int, offsets: seq<int>): Result<bool>
    requires IsSha1(hmac)
  {
    if offsets == [] then Ok(false)
    else
      match Totp(hmac, up, secret, step + offsets[0])
      case Ok(expected) => if expected == code then Ok(true) else TryOffsets(hmac, up, secret, code, step, offsets[1..])
      case InvalidSecret => InvalidSecret
      case CounterOutOfRange => CounterOutOfRange
  }

  lemma {:induction false} SixDigitsHaveNoSpaces(s: string)
    requires forall i | 0 <= i < |s| :: IsDigit(s[i])
    ensures RemoveSpaces(s) == s
  {
    if s != "" { SixDigitsHaveNoSpaces(s[1..]); }
  }

  predicate Matches(hmac: Hmac, up: CaseMap, secret: string, code: string, step: int)
    requires IsSha1(hmac)
  {
    Totp(hmac, up, secret, step) == Ok(code)
  }

  lemma FirstOffset(hmac: Hmac, up: CaseMap, secret: string, code: string, step: int, offset: int, rest: seq<int>)
    requires IsSha1(hmac)
    ensures
      TryOffsets(hmac, up, secret, code, step, [offset] + rest) ==
        if Decoded(up, secret).None? then InvalidSecret
        else if !InRange(step + offset) then CounterOutOfRange
        else if Matches(hmac, up, secret, code, step + offset) then Ok(true)
        else TryOffsets(hmac, up, secret, code, step, rest)
    ensures Decoded(up, secret).None? || !InRange(step + offset) ==> !Matches(hmac, up, secret, code, step + offset)
  {
    hide Decoded, CodeOf;
    assert ([offset] + rest)[1..] == rest;
  }

  ghost predicate MatchesNearby(hmac: Hmac, up: CaseMap, secret: string, code: string, step: int)
    requires IsSha1(hmac)
  {
    exists s | step - 1 <= s <= step + 1 :: Matches(hmac, up, secret, code, s)
  }

  lemma NearbyIsOneOfThree(hmac: Hmac, up: CaseMap, secret: string, code: string, step: int)
    requires IsSha1(hmac)
    ensures MatchesNearby(hmac, up, secret, code, step) <==>
      || Matches(hmac, up, secret, code, step - 1)
      || Matches(hmac, up, secret, code, step)
      || Matches(hmac, up, secret, code, step + 1)
  {
    hide Matches;
  }

  lemma ThreeOffsets(hmac: Hmac, up: CaseMap, secret: string, code: string, step: int)
    requires IsSha1(hmac)
    ensures
      TryOffsets(hmac, up, secret, code, step, [-1, 0, 1]) ==
        if Decoded(up, secret).None? then InvalidSecret
        else if step < 1 then CounterOutOfRange
        else if MatchesNearby(hmac, up, secret, code, step) then Ok(true)
        else if TWO_32 * TWO_32 <= step + 1 then CounterOutOfRange
        else Ok(false)
  {
    hide Matches, MatchesNearby, Decoded, TryOffsets;
    NearbyIsOneOfThree(hmac, up, secret, code, step);
    FirstOffset(hmac, up, secret, code, step, -1, [0, 1]);
    FirstOffset(hmac, up, secret, code, step, 0, [1]);
    FirstOffset(hmac, up, secret, code, step, 1, []);
    NoOffsets(hmac, up, secret, code, step);
    assert [-1] + [0, 1] == [-1, 0, 1] && [0] + [1] == [0, 1] && [1] + [] == [1];
  }

  lemma NoOffsets(hmac: Hmac, up: CaseMap, secret: string, code: string, step: int)
    requires IsSha1(hmac)
    ensures TryOffsets(hmac, up, secret, code, step, []) == Ok(false)
  {
  }

  /**
   What verification answers to any input: once its spaces are removed, an ill-formed code is
   refused before the secret is looked at; with all three steps in range, acceptance means
   being the code of one of them.
   */
  lemma AcceptedIffCodeOfANearbyStep(hmac: Hmac, up: CaseMap, secret: string, code: string, now: int)
    requires IsSha1(hmac)
    ensures
      var typed, step := RemoveSpaces(code), TimeStep(now);
      VerifyAt(hmac, up, secret, code, now) ==
        if !IsSixDigits(typed) then Ok(false)
        else if Decoded(up, secret).None? then InvalidSecret
        else if step < 1 then CounterOutOfRange
        else if MatchesNearby(hmac, up, secret, typed, step) then Ok(true)
        else if TWO_32 * TWO_32 <= step + 1 then CounterOutOfRange
        else Ok(false)
  {
    hide MatchesNearby, Decoded, TryOffsets;
    ThreeOffsets(hmac, up, secret, RemoveSpaces(code), TimeStep(now));
  }

  /**
   A code made at time `t` is accepted at every time within 30 seconds, unless the
   verifying clock reads less than 30 seconds after 1970: there the step before the
   present one is negative, and writing it throws.
   */
  lemma CodesLiveThirtySeconds(hmac: Hmac, up: CaseMap, secret: string, t: int, now: int)
    requires IsSha1(hmac)
    requires Totp(hmac, up, secret, TimeStep(t)).Ok?
    requires -30_000 <= now - t <= 30_000
    ensures
      VerifyAt(hmac, up, secret, Totp(hmac, up, secret, TimeStep(t)).value, now)
        == if now < 30_000 then CounterOutOfRange else Ok(true)
  {
    var code := Totp(hmac, up, secret, TimeStep(t)).value;
    CodeIsSixDigits(hmac(Decoded(up, secret).value, Counter(TimeStep(t))));
    SixDigitsHaveNoSpaces(code);
    AcceptedIffCodeOfANearbyStep(hmac, up, secret, code, now);
    assert Matches(hmac, up, secret, code, TimeStep(t));
    assert TimeStep(now) - 1 <= TimeStep(t) <= TimeStep(now) + 1;
  }

  /** At the epoch itself, the code of that moment is not accepted: verification throws. */
  lemma ThrowsAtTheEpoch(hmac: Hmac, up: CaseMap)
    requires IsSha1(hmac)
    ensures
      var code := Totp(hmac, up, "", 0);
      code.Ok? && IsSixDigits(code.value) && VerifyAt(hmac, up, "", code.value, 0) == CounterOutOfRange
  {
    assert StripPadding("") == "" && RemoveSpaces("") == "" && MapCase(up, "") == "";
    assert Decoded(up, "").Some?;
    CodeIsSixDigits(hmac(Decoded(up, "").value, Counter(0)));
    hide Decoded, CodeOf, VerifyAt;
    CodesLiveThirtySeconds(hmac, up, "", 0, 0);
  }

  /** A code whose step lies outside the window is accepted only if it collides with a code in it. */
  lemma OldCodesNeedACollision(hmac: Hmac, up: CaseMap, secret: string, t: int, now: int)
    requires IsSha1(hmac)
    requires Totp(hmac, up, secret, TimeStep(t)).Ok?
    requires 60_000 <= now - t || 60_000 <= t - now
    ensures
      var code := Totp(hmac, up, secret, TimeStep(t)).value;
      VerifyAt(hmac, up, secret, code, now) == Ok(true) ==>
        exists s | TimeStep(now) - 1 <= s <= TimeStep(now) + 1 ::
          s != TimeStep(t) && Matches(hmac, up, secret, code, s)
  {
    var key := Decoded(up, secret).value;
    CodeIsSixDigits(hmac(key, Counter(TimeStep(t))));
    SixDigitsHaveNoSpaces(Totp(hmac, up, secret, TimeStep(t)).value);
    AcceptedIffCodeOfANearbyStep(hmac, up, secret, Totp(hmac, up, secret, TimeStep(t)).value, now);
  }
}
