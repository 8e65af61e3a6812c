/** JavaScript's bitwise operators. Every operand is first reduced to a 32-bit word;
    a word is kept here as its 32 bits, most significant first. */
module Words {
  import opened BitStrings

  type Word = w: Bits | |w| == 32 witness Zeros(32)

  /** The word a non-negative integer below 2^53 is reduced to (ToUint32). */
  function OfNat(n: nat): Word { FromNat(n, 32) }

  /** The word any integer is reduced to: 32-bit two's complement. */
  function OfInt(n: int): Word {
    OfNat(n % 0x1_0000_0000)
  }

  /** The unsigned reading of a word. */
  function Unsigned(w: Word): (n: nat) { ToNat(w) }

  /** The signed reading, which is what `|`, `&`, `^` and `<<` evaluate to. */
  function Signed(w: Word): (n: int) {
    if w[0] then ToNat(w) - 0x1_0000_0000 else ToNat(w)
  }

  /** `w << k`: the top k bits are lost. */
  function Shl(w: Word, k: nat): Word
    requires k < 32
  {
    w[k..] + Zeros(k)
  }

  /** `w >>> k` */
  function Shr(w: Word, k: nat): Word
    requires k < 32
  {
    Zeros(k) + w[..32 - k]
  }

  function And(a: Word, b: Word): Word { seq(32, i requires 0 <= i < 32 => a[i] && b[i]) }
  function Or(a: Word, b: Word): Word { seq(32, i requires 0 <= i < 32 => a[i] || b[i]) }
  function Xor(a: Word, b: Word): Word { seq(32, i requires 0 <= i < 32 => a[i] != b[i]) }

  lemma OfByte(b: Byte)
    ensures OfNat(b) == Zeros(24) + ByteBits(b)
  {
    FromNatWide(b, 8, 24);
  }

  lemma {:induction false} FromNatWide(n: nat, width: nat, extra: nat)
    requires n < Pow2(width)
    ensures FromNat(n, extra + width) == Zeros(extra) + FromNat(n, width)
  {
    if width == 0 {
      FromNatZero(extra);
    } else {
      FromNatWide(n / 2, width - 1, extra);
    }
  }

  lemma {:induction false} FromNatZero(width: nat)
    ensures FromNat(0, width) == Zeros(width)
  {
    if width > 0 { FromNatZero(width - 1); }
  }

  /** The word 2^k - 1. */
  function LowMask(k: nat): Word
    requires k <= 32
  {
    Zeros(32 - k) + Ones(k)
  }

  lemma LowMaskIs(k: nat, n: nat)
    requires k <= 32 && n == Pow2(k) - 1
    ensures OfNat(n) == LowMask(k)
  {
    FromNatLowMask(k, 32);
  }

  lemma AndLowMask(w: Word, k: nat)
    requires k <= 32
    ensures And(w, LowMask(k)) == Zeros(32 - k) + w[32 - k..]
  {
  }

  /** `w & (2^k - 1)` is the number the low k bits spell. */
  lemma MaskValue(w: Word, k: nat)
    requires k <= 32
    ensures Unsigned(And(w, LowMask(k))) == ToNat(w[32 - k..])
  {
    AndLowMask(w, k);
    ToNatLeadingZeros(32 - k, w[32 - k..]);
  }

  /** A masked word is below 2^k. */
  lemma MaskBelow(w: Word, k: nat, n: nat)
    requires k <= 32 && n == Pow2(k) - 1
    ensures Unsigned(And(w, OfNat(n))) <= n
  {
    LowMaskIs(k, n);
    MaskValue(w, k);
  }

  lemma Pow2Values()
    ensures Pow2(5) == 32 && Pow2(8) == 256 && Pow2(31) == 0x8000_0000 && Pow2(32) == 0x1_0000_0000
    ensures Pow2(4) == 16 && Pow2(7) == 128 && Pow2(6) == 64 && Pow2(24) == 0x100_0000 && Pow2(16) == 0x1_0000
  {
    assert Pow2(8) == 16 * Pow2(4);
    assert Pow2(12) == 16 * Pow2(8);
    assert Pow2(16) == 16 * Pow2(12);
    assert Pow2(20) == 16 * Pow2(16);
    assert Pow2(24) == 16 * Pow2(20);
    assert Pow2(28) == 16 * Pow2(24);
    assert Pow2(32) == 16 * Pow2(28);
  }

  lemma UnsignedOfNat(n: nat)
    requires n < 0x1_0000_0000
    ensures Unsigned(OfNat(n)) == n
  {
    Pow2Values();
    ToNatFromNat(n, 32);
  }
}

/** A word used as a shift register that is never masked. */
module ShiftRegister {
  import opened BitStrings
  import opened Words

  /** The low end of the register holds `held`; whatever stands above it is debris. */
  ghost predicate Ends(value: Word, held: Bits) {
    |held| <= 32 && value[32 - |held|..] == held
  }

  lemma ShlHeld(value: Word, held: Bits, k: nat)
    requires Ends(value, held) && |held| + k <= 32 && k < 32
    ensures Ends(Shl(value, k), held + Zeros(k))
  {
  }

  lemma OrLow(w: Word, held: Bits, low: Bits)
    requires Ends(w, held + Zeros(|low|)) && |low| <= 32
    ensures Ends(Or(w, Zeros(32 - |low|) + low), held + low)
  {
    assert w[32 - |held| - |low|..] == held + Zeros(|low|);
  }

  /** `value = (value << k) | n` takes k more bits in; the top of the register falls off. */
  lemma ShiftIn(value: Word, held: Bits, n: nat, k: nat)
    requires Ends(value, held) && |held| + k <= 32 && k < 32 && n < Pow2(k)
    ensures Ends(Or(Shl(value, k), OfNat(n)), held + FromNat(n, k))
  {
    FromNatWide(n, k, 32 - k);
    ShlHeld(value, held, k);
    OrLow(Shl(value, k), held, FromNat(n, k));
  }

  lemma EndsSplit(value: Word, g: Bits, rest: Bits)
    requires Ends(value, g + rest) && 0 < |g|
    ensures |rest| < 32 && Ends(value, rest) && Ends(Shr(value, |rest|), g)
  {
    var at := 32 - |g| - |rest|;
    assert |g + rest| == |g| + |rest|;
    assert value[at..] == g + rest;
    assert value[32 - |rest|..] == value[at..][|g|..] == rest;
    ShrLow(value, |rest|, |g|);
    assert value[at..32 - |rest|] == value[at..][..|g|] == g;
  }

  lemma ShrLow(w: Word, at: nat, k: nat)
    requires at + k <= 32 && at < 32
    ensures Shr(w, at)[32 - k..] == w[32 - at - k..32 - at]
  {
  }

  /** `value & (2^k - 1)` is the k bits held. */
  lemma ReadAll(value: Word, held: Bits)
    requires Ends(value, held)
    ensures Unsigned(And(value, LowMask(|held|))) == ToNat(held)
  {
    MaskValue(value, |held|);
  }

  /** `(value >>> (bits - k)) & (2^k - 1)` is the oldest k of the held bits. */
  lemma ReadOut(value: Word, g: Bits, rest: Bits)
    requires Ends(value, g + rest) && 0 < |g|
    ensures |rest| < 32
    ensures Unsigned(And(Shr(value, |rest|), LowMask(|g|))) == ToNat(g)
    ensures Ends(value, rest)
  {
    EndsSplit(value, g, rest);
    ReadAll(Shr(value, |rest|), g);
  }

  /** `(value << (k - bits)) & (2^k - 1)` is the held bits, filled up to k with zeros. */
  lemma ReadLast(value: Word, held: Bits, k: nat)
    requires Ends(value, held) && |held| <= k < 32
    ensures Unsigned(And(Shl(value, k - |held|), LowMask(k))) == ToNat(held + Zeros(k - |held|))
  {
    ShlHeld(value, held, k - |held|);
    ReadAll(Shl(value, k - |held|), held + Zeros(k - |held|));
  }
}
