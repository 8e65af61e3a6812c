/** HOTP and TOTP as apps/auth/src/lib/auth/totp.ts computes them (RFC 4226, RFC 6238). */
module Totp {
  import opened BitStrings
  import opened Words
  import opened ShiftRegister
  import opened JsText
  import Base32

  /** An HMAC-SHA-1 tag. */
  type Tag = t: seq<Byte> | |t| == 20 witness seq(20, _ => 0)

  /** HMAC-SHA-1 itself: key, message, tag. */
  type Mac = (seq<Byte>, seq<Byte>) -> Tag

  // ---------------------------------------------------------------- the counter

  /** The low `len` octets of an integer, most significant first (two's complement if negative). */
  function BigEndian(c: int, len: nat): (s: seq<Byte>)
    ensures |s| == len
    decreases if c < 0 then -c else c, len
  {
    if len == 0 then [] else BigEndian(c / 256, len - 1) + [c % 256]
  }

  function Value(s: seq<Byte>): nat {
    if |s| == 0 then 0 else 256 * Value(s[..|s| - 1]) + s[|s| - 1]
  }

  lemma LowByte(c: int)
    ensures Unsigned(And(OfInt(c), OfNat(0xff))) == c % 256
  {
    Pow2Values();
    LowMaskIs(8, 0xff);
    MaskValue(OfInt(c), 8);
    LowOctet(c % 0x1_0000_0000);
    ModTower(c);
  }

  lemma ModTower(c: int)
    ensures (c % 0x1_0000_0000) % 256 == c % 256
  {
    var q, n := c / 0x1_0000_0000, c % 0x1_0000_0000;
    ModUnique(c, 256, 0x100_0000 * q + n / 256, n % 256);
  }

  lemma LowOctet(n: nat)
    ensures ToNat(OfNat(n)[24..]) == n % 256
  {
    Pow2Values();
    FromNatSuffix(n, 8, 24);
    FromNatLow(n % 256, 8, n / 256);
    ToNatFromNat(n % 256, 8);
  }

  method CounterBytes(counter: int) returns (buf: array<Byte>)
    ensures fresh(buf) && buf.Length == 8 && buf[..] == BigEndian(counter, 8)
  {
    buf := new Byte[8](_ => 0);
    var c := counter;
    var i := 7;
    assert buf[8..] == [];
    while i >= 0
      invariant -1 <= i <= 7
      invariant BigEndian(counter, 8) == BigEndian(c, i + 1) + buf[i + 1..]
    {
      LowByte(c);
      ghost var after := buf[i + 1..];
      buf[i] := Unsigned(And(OfInt(c), OfNat(0xff)));
      assert buf[i..] == [c % 256] + after;
      assert BigEndian(c, i + 1) + after == BigEndian(c / 256, i) + ([c % 256] + after);
      c := c / 256;
      i := i - 1;
    }
    assert buf[0..] == buf[..];
  }

  function Pow256(n: nat): (r: nat)
    ensures r > 0
  {
    if n == 0 then 1 else 256 * Pow256(n - 1)
  }

  function Above(c: int, len: nat): int
    decreases len
  {
    if len == 0 then c else Above(c / 256, len - 1)
  }

  lemma {:induction false} BigEndianValue(c: int, len: nat)
    ensures 0 <= Value(BigEndian(c, len)) < Pow256(len)
    ensures c == Above(c, len) * Pow256(len) + Value(BigEndian(c, len))
    decreases len
  {
    if len > 0 {
      assert BigEndian(c, len)[..len - 1] == BigEndian(c / 256, len - 1);
      BigEndianValue(c / 256, len - 1);
      Times256(Above(c / 256, len - 1), Pow256(len - 1));
    }
  }

  lemma Times256(a: int, p: int)
    ensures a * (256 * p) == 256 * (a * p)
  {
  }

  /** The eight octets are the counter modulo 2^64. */
  lemma CounterOctets(c: int)
    ensures Value(BigEndian(c, 8)) == c % 0x1_0000_0000_0000_0000
  {
    BigEndianValue(c, 8);
    assert Pow256(4) == 0x1_0000_0000;
    assert Pow256(8) == 0x1_0000_0000 * Pow256(4);
    ModUnique(c, Pow256(8), Above(c, 8), Value(BigEndian(c, 8)));
  }

  /** No two integers a JavaScript number holds exactly share their eight octets. */
  lemma CounterInjective(c: int, d: int)
    requires -0x20_0000_0000_0000 < c < 0x20_0000_0000_0000
    requires -0x20_0000_0000_0000 < d < 0x20_0000_0000_0000
    requires BigEndian(c, 8) == BigEndian(d, 8)
    ensures c == d
  {
    CounterOctets(c);
    CounterOctets(d);
    SameResidue(c, d, 0x1_0000_0000_0000_0000);
  }

  lemma SameResidue(c: int, d: int, m: int)
    requires m > 0 && c % m == d % m && -m < c - d < m
    ensures c == d
  {
    var p, q := c / m, d / m;
    assert c - d == (p - q) * m;
    if p > q { MulMono(1, p - q, m); }
    if q > p { MulMono(1, q - p, m); }
  }

  // ---------------------------------------------------------------- truncation

  function Offset(sig: Tag): nat {
    Unsigned(And(OfNat(sig[19]), OfNat(0x0f)))
  }

  lemma OffsetInBounds(sig: Tag)
    ensures Offset(sig) == sig[19] % 16
  {
    var b := sig[19];
    Pow2Values();
    LowMaskIs(4, 0x0f);
    MaskValue(OfNat(b), 4);
    FromNatSuffix(b, 4, 28);
    FromNatLow(b % 16, 4, b / 16);
    ToNatFromNat(b % 16, 4);
  }

  /** The four octets joined by `<<` and `|`, the top one without its sign bit. */
  function Join(b0: Byte, b1: Byte, b2: Byte, b3: Byte): Word {
    Or(Or(Or(
      Shl(And(OfNat(b0), OfNat(0x7f)), 24),
      Shl(And(OfNat(b1), OfNat(0xff)), 16)),
      Shl(And(OfNat(b2), OfNat(0xff)), 8)),
      And(OfNat(b3), OfNat(0xff)))
  }

  function Binary(sig: Tag): int {
    OffsetInBounds(sig);
    var o := Offset(sig);
    Signed(Join(sig[o], sig[o + 1], sig[o + 2], sig[o + 3]))
  }

  lemma MaskedByte(b: Byte)
    ensures And(OfNat(b), OfNat(0xff)) == Zeros(24) + ByteBits(b)
  {
    Pow2Values();
    LowMaskIs(8, 0xff);
    AndLowMask(OfNat(b), 8);
    OfByte(b);
  }

  lemma MaskedTop(b: Byte)
    ensures And(OfNat(b), OfNat(0x7f)) == Zeros(25) + ByteBits(b)[1..]
  {
    Pow2Values();
    LowMaskIs(7, 0x7f);
    AndLowMask(OfNat(b), 7);
    OfByte(b);
    assert OfNat(b)[25..] == ByteBits(b)[1..];
  }

  lemma JoinBits(b0: Byte, b1: Byte, b2: Byte, b3: Byte)
    ensures Join(b0, b1, b2, b3) == [false] + ByteBits(b0)[1..] + ByteBits(b1) + ByteBits(b2) + ByteBits(b3)
  {
    MaskedTop(b0);
    MaskedByte(b1);
    MaskedByte(b2);
    MaskedByte(b3);
    OrFields(ByteBits(b0)[1..], ByteBits(b1), ByteBits(b2), ByteBits(b3));
  }

  lemma OrFields(t: Bits, u: Bits, v: Bits, w: Bits)
    requires |t| == 7 && |u| == |v| == |w| == 8
    ensures Or(Or(Or(Shl(Zeros(25) + t, 24), Shl(Zeros(24) + u, 16)), Shl(Zeros(24) + v, 8)), Zeros(24) + w)
         == [false] + t + u + v + w
  {
    assert Shl(Zeros(25) + t, 24) == [false] + t + Zeros(24);
    assert Shl(Zeros(24) + u, 16) == Zeros(8) + u + Zeros(16);
    assert Shl(Zeros(24) + v, 8) == Zeros(16) + v + Zeros(8);
    var a := Or([false] + t + Zeros(24), Zeros(8) + u + Zeros(16));
    assert a == [false] + t + u + Zeros(16);
    var b := Or(a, Zeros(16) + v + Zeros(8));
    assert b == [false] + t + u + v + Zeros(8);
  }

  lemma TopBitsValue(b: Byte)
    ensures ToNat([false] + ByteBits(b)[1..]) == b % 128
  {
    Pow2Values();
    FromNatSuffix(b, 7, 1);
    FromNatLow(b % 128, 7, b / 128);
    ToNatFromNat(b % 128, 7);
    assert [false] == Zeros(1);
    ToNatLeadingZeros(1, FromNat(b, 7));
  }

  lemma AppendByte(a: Bits, b: Byte)
    ensures ToNat(a + ByteBits(b)) == 256 * ToNat(a) + b
  {
    Pow2Values();
    ToNatConcat(a, ByteBits(b));
    ToNatFromNat(b, 8);
  }

  /** Four octets as one number, the sign bit of the first dropped. */
  function Int31(b0: int, b1: int, b2: int, b3: int): int {
    (b0 % 128) * 0x100_0000 + b1 * 0x1_0000 + b2 * 0x100 + b3
  }

  lemma JoinValue(b0: Byte, b1: Byte, b2: Byte, b3: Byte)
    ensures Signed(Join(b0, b1, b2, b3)) == Int31(b0, b1, b2, b3)
  {
    JoinBits(b0, b1, b2, b3);
    var top := [false] + ByteBits(b0)[1..];
    TopBitsValue(b0);
    AppendByte(top, b1);
    AppendByte(top + ByteBits(b1), b2);
    AppendByte(top + ByteBits(b1) + ByteBits(b2), b3);
  }

  /** Section 5.3 of RFC 4226: 31 bits read at the offset the last nibble names. The reads stay
      inside the tag and the result is never negative, though `<<` and `|` are signed. */
  lemma Truncation(sig: Tag)
    ensures Offset(sig) == sig[19] % 16
    ensures var o := sig[19] % 16;
            Binary(sig) == Int31(sig[o], sig[o + 1], sig[o + 2], sig[o + 3])
    ensures 0 <= Binary(sig) < 0x8000_0000
  {
    OffsetInBounds(sig);
    var o := Offset(sig);
    JoinValue(sig[o], sig[o + 1], sig[o + 2], sig[o + 3]);
  }

  // ---------------------------------------------------------------- six digits

  function Digit(d: nat): char
    requires d < 10
  {
    '0' + d as char
  }

  /** `n.toString()` */
  function Decimal(n: nat): (s: string)
    ensures s != "" && forall c :: c in s ==> IsDigit(c)
  {
    if n < 10 then [Digit(n)] else Decimal(n / 10) + [Digit(n % 10)]
  }

  /** `s.padStart(len, c)` */
  function PadStart(s: string, len: nat, c: char): string {
    if |s| >= len then s else Repeat(c, len - |s|) + s
  }

  function DigitValue(c: char): nat {
    if IsDigit(c) then c as int - '0' as int else 0
  }

  /** `Number(s)` for a string of digits. */
  function Parse(s: string): nat
  {
    if s == "" then 0 else Parse(s[..|s| - 1]) * 10 + DigitValue(s[|s| - 1])
  }

  lemma {:induction false} ParseDecimal(n: nat)
    ensures Parse(Decimal(n)) == n
  {
    if n >= 10 {
      assert Decimal(n)[..|Decimal(n)| - 1] == Decimal(n / 10);
      ParseDecimal(n / 10);
    }
  }

  lemma {:induction false} ParseZeros(k: nat, s: string)
    ensures Parse(Repeat('0', k) + s) == Parse(s)
  {
    var t := Repeat('0', k) + s;
    if s != "" {
      assert t[..|t| - 1] == Repeat('0', k) + s[..|s| - 1];
      ParseZeros(k, s[..|s| - 1]);
    } else if k > 0 {
      assert t[..|t| - 1] == Repeat('0', k - 1) + "";
      ParseZeros(k - 1, "");
    }
  }

  lemma {:induction false} DecimalLength(n: nat, d: nat)
    requires d > 0 && n < Pow10(d)
    ensures |Decimal(n)| <= d
  {
    if n >= 10 { DecimalLength(n / 10, d - 1); }
  }

  function Pow10(n: nat): nat { if n == 0 then 1 else 10 * Pow10(n - 1) }

  predicate SixDigits(s: string) {
    |s| == 6 && forall c :: c in s ==> IsDigit(c)
  }

  function Code(sig: Tag): string {
    Truncation(sig);
    PadStart(Decimal(Binary(sig) % 1_000_000), 6, '0')
  }

  /** A code is six digits and spells the truncated value modulo 10^6. */
  lemma CodeIsSixDigits(sig: Tag)
    ensures SixDigits(Code(sig)) && Parse(Code(sig)) == Binary(sig) % 1_000_000
  {
    Truncation(sig);
    PaddedNumber(Binary(sig) % 1_000_000);
  }

  lemma PaddedNumber(n: nat)
    requires n < 1_000_000
    ensures SixDigits(PadStart(Decimal(n), 6, '0')) && Parse(PadStart(Decimal(n), 6, '0')) == n
  {
    assert Pow10(6) == 1_000_000;
    DecimalLength(n, 6);
    ParseDecimal(n);
    ParseZeros(6 - |Decimal(n)|, Decimal(n));
  }

  ghost function Hotp(mac: Mac, secret: seq<Byte>, counter: int): string {
    Code(mac(secret, BigEndian(counter, 8)))
  }

  method ComputeHotp(mac: Mac, secret: seq<Byte>, counter: int) returns (code: string)
    ensures code == Hotp(mac, secret, counter)
    ensures SixDigits(code)
  {
    var buf := CounterBytes(counter);
    code := Code(mac(secret, buf[..]));
    CodeIsSixDigits(mac(secret, buf[..]));
  }

  // ---------------------------------------------------------------- verification

  const STEP_MS := 30_000

  function CurrentStep(nowMs: int): int { nowMs / STEP_MS }

  /** Some step at most `window` away from the current one has this code. */
  ghost predicate InWindow(mac: Mac, secret: seq<Byte>, code: string, window: int, nowMs: int) {
    exists s :: CurrentStep(nowMs) - window <= s <= CurrentStep(nowMs) + window && Hotp(mac, secret, s) == code
  }

  datatype Verdict = Answer(ok: bool) | InvalidSecret

  ghost predicate NoneIn(mac: Mac, secret: seq<Byte>, code: string, from: int, to: int) {
    forall s :: from <= s < to ==> Hotp(mac, secret, s) != code
  }

  lemma NoneInStep(mac: Mac, secret: seq<Byte>, code: string, from: int, to: int)
    requires NoneIn(mac, secret, code, from, to) && Hotp(mac, secret, to) != code
    ensures NoneIn(mac, secret, code, from, to + 1)
  {
  }

  lemma Found(mac: Mac, secret: seq<Byte>, code: string, window: int, nowMs: int, s: int)
    requires CurrentStep(nowMs) - window <= s <= CurrentStep(nowMs) + window && Hotp(mac, secret, s) == code
    ensures InWindow(mac, secret, code, window, nowMs)
  {
  }

  lemma NotFound(mac: Mac, secret: seq<Byte>, code: string, window: int, nowMs: int, to: int)
    requires NoneIn(mac, secret, code, CurrentStep(nowMs) - window, to) && to > CurrentStep(nowMs) + window
    ensures !InWindow(mac, secret, code, window, nowMs)
  {
  }

  method TryWindow(mac: Mac, secret: seq<Byte>, normalized: string, window: int, nowMs: int) returns (ok: bool)
    ensures ok == InWindow(mac, secret, normalized, window, nowMs)
  {
    hide Hotp;
    var step := CurrentStep(nowMs);
    var w := -window;
    while w <= window
      invariant w >= -window && NoneIn(mac, secret, normalized, step - window, step + w)
    {
      var candidate := ComputeHotp(mac, secret, step + w);
      if candidate == normalized {
        Found(mac, secret, normalized, window, nowMs, step + w);
        return true;
      }
      NoneInStep(mac, secret, normalized, step - window, step + w);
      w := w + 1;
    }
    NotFound(mac, secret, normalized, window, nowMs, step + w);
    return false;
  }

  /** What `verifyTotp` answers for a stored secret text. */
  ghost function Expected(mac: Mac, stored: Base32.Decoded, code: string, window: int, nowMs: int): Verdict {
    if !SixDigits(code) then Answer(false)
    else if stored.InvalidCharacter? then InvalidSecret
    else Answer(InWindow(mac, stored.bytes, code, window, nowMs))
  }

  /** The code is that of a 30-second step at most `window` steps before or after the moment. */
  ghost predicate Shown(mac: Mac, secret: seq<Byte>, code: string, window: int, nowMs: int) {
    exists s :: (s - window) * 30_000 <= nowMs < (s + window + 1) * 30_000 && Hotp(mac, secret, s) == code
  }

  lemma SixDigitsIff(code: string)
    ensures SixDigits(code) <==> |code| == 6 && forall i :: 0 <= i < 6 ==> '0' <= code[i] <= '9'
  {
    if SixDigits(code) {
      forall i | 0 <= i < 6 ensures '0' <= code[i] <= '9' { assert code[i] in code; }
    }
    if |code| == 6 && forall i :: 0 <= i < 6 ==> '0' <= code[i] <= '9' {
      forall c | c in code ensures IsDigit(c) {
        var i :| 0 <= i < |code| && code[i] == c;
      }
    }
  }

  /** A step is in the window by number exactly if it is by time. */
  lemma WindowOf(s: int, window: int, nowMs: int)
    ensures CurrentStep(nowMs) - window <= s <= CurrentStep(nowMs) + window
       <==> (s - window) * 30_000 <= nowMs < (s + window + 1) * 30_000
  {
  }

  lemma ShownIff(mac: Mac, secret: seq<Byte>, code: string, window: int, nowMs: int)
    ensures InWindow(mac, secret, code, window, nowMs) <==> Shown(mac, secret, code, window, nowMs)
  {
    hide Hotp, CurrentStep;
    forall s | Hotp(mac, secret, s) == code
      ensures CurrentStep(nowMs) - window <= s <= CurrentStep(nowMs) + window
         <==> (s - window) * 30_000 <= nowMs < (s + window + 1) * 30_000
    {
      WindowOf(s, window, nowMs);
    }
  }

  /** Exactly when a code is accepted, and when the stored secret is unreadable. */
  lemma ExpectedIff(mac: Mac, stored: Base32.Decoded, code: string, window: int, nowMs: int)
    ensures var r := Expected(mac, stored, code, window, nowMs);
      && (r == Answer(true) <==>
            |code| == 6 && (forall i :: 0 <= i < 6 ==> '0' <= code[i] <= '9')
            && stored.Bytes? && Shown(mac, stored.bytes, code, window, nowMs))
      && (r == InvalidSecret <==>
            |code| == 6 && (forall i :: 0 <= i < 6 ==> '0' <= code[i] <= '9') && !stored.Bytes?)
  {
    hide InWindow, Shown, SixDigits;
    SixDigitsIff(code);
    if stored.Bytes? { ShownIff(mac, stored.bytes, code, window, nowMs); }
  }

  method VerifyTotp(mac: Mac, upper: char -> string, secret: string, code: string, window: int, nowMs: int)
    returns (r: Verdict)
    ensures r == Expected(mac, Base32.DecodedText(Base32.Clean(secret, upper)), Trim(code), window, nowMs)
    ensures var stored := Base32.DecodedText(Base32.Clean(secret, upper));
      && (r == Answer(true) <==>
            |Trim(code)| == 6 && (forall i :: 0 <= i < 6 ==> '0' <= Trim(code)[i] <= '9')
            && stored.Bytes? && Shown(mac, stored.bytes, Trim(code), window, nowMs))
      && (r == InvalidSecret <==>
            |Trim(code)| == 6 && (forall i :: 0 <= i < 6 ==> '0' <= Trim(code)[i] <= '9') && !stored.Bytes?)
  {
    ExpectedIff(mac, Base32.DecodedText(Base32.Clean(secret, upper)), Trim(code), window, nowMs);
    hide Shown, InWindow, Trim;
    var normalized := Trim(code);
    if !SixDigits(normalized) { return Answer(false); }
    var decoded := Base32.Base32Decode(secret, upper);
    if decoded.InvalidCharacter? { return InvalidSecret; }
    var ok := TryWindow(mac, decoded.bytes, normalized, window, nowMs);
    r := Answer(ok);
  }

  /** The code of step s is accepted from (s - window) * 30 s until just before (s + window + 1) * 30 s;
      at any other time only because a different step in the window happens to share it. */
  lemma AcceptanceInterval(mac: Mac, secret: seq<Byte>, s: int, window: nat, nowMs: int)
    ensures (s - window) * 30_000 <= nowMs < (s + window + 1) * 30_000
        ==> InWindow(mac, secret, Hotp(mac, secret, s), window, nowMs)
    ensures !((s - window) * 30_000 <= nowMs < (s + window + 1) * 30_000)
        ==> (InWindow(mac, secret, Hotp(mac, secret, s), window, nowMs)
             <==> exists t :: t != s && (t - window) * 30_000 <= nowMs < (t + window + 1) * 30_000
                              && Hotp(mac, secret, t) == Hotp(mac, secret, s))
  {
    hide Hotp, CurrentStep;
    forall t | Hotp(mac, secret, t) == Hotp(mac, secret, s)
      ensures CurrentStep(nowMs) - window <= t <= CurrentStep(nowMs) + window
         <==> (t - window) * 30_000 <= nowMs < (t + window + 1) * 30_000
    {
      WindowOf(t, window, nowMs);
    }
  }

  /** Two clocks at most 30 s apart agree under the default window of one step. */
  lemma SkewTolerated(mac: Mac, secret: seq<Byte>, proverMs: int, verifierMs: int)
    requires -30_000 <= proverMs - verifierMs <= 30_000
    ensures InWindow(mac, secret, Hotp(mac, secret, proverMs / 30_000), 1, verifierMs)
  {
    assert CurrentStep(verifierMs) - 1 <= CurrentStep(proverMs) <= CurrentStep(verifierMs) + 1;
  }

  /** The 30 s are exact: any larger skew puts some pair of instants two steps apart. */
  lemma SkewBoundTight(skew: int) returns (proverMs: int)
    requires skew > 30_000
    ensures (proverMs + skew) / 30_000 > proverMs / 30_000 + 1
  {
    proverMs := 29_999;
  }

  lemma SixDigitsTrimmed(code: string)
    requires SixDigits(code)
    ensures Trim(code) == code
  {
    assert code[0] in code && code[5] in code;
    TrimOfTrimmed(code);
  }

  /** Enrolment to sign-in: a code an authenticator derives from the key octets passes against
      the base32 text stored for them, if the two clocks are within 30 s. */
  lemma EnrolledCodeAccepted(mac: Mac, upper: char -> string, key: seq<Byte>, proverMs: int, verifierMs: int)
    requires UpperCasing(upper) && -30_000 <= proverMs - verifierMs <= 30_000
    ensures Expected(mac, Base32.DecodedText(Base32.Clean(Base32.Rfc4648(key), upper)),
                     Trim(Hotp(mac, key, proverMs / 30_000)), 1, verifierMs) == Answer(true)
  {
    CodeIsSixDigits(mac(key, BigEndian(proverMs / 30_000, 8)));
    var code := Hotp(mac, key, proverMs / 30_000);
    SixDigitsTrimmed(code);
    SkewTolerated(mac, key, proverMs, verifierMs);
    Base32.PlainRoundTrip(key, upper);
  }
}
