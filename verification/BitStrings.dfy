/** Bit strings, most significant bit first, and the octet strings they spell.
    The base32 and base64 codecs regroup one bit string into groups of five or six. */
module BitStrings {
  type Bits = seq<bool>
  type Byte = n: int | 0 <= n < 256

  function Pow2(n: nat): (r: nat)
    ensures r > 0
  {
    if n == 0 then 1 else 2 * Pow2(n - 1)
  }

  function Bit(b: bool): nat { if b then 1 else 0 }

  /** The number a bit string spells. */
  function ToNat(b: Bits): (n: nat)
    ensures n < Pow2(|b|)
  {
    if |b| == 0 then 0 else 2 * ToNat(b[..|b| - 1]) + Bit(b[|b| - 1])
  }

  /** The low `width` bits of `n`. */
  function FromNat(n: nat, width: nat): (b: Bits)
    ensures |b| == width
  {
    if width == 0 then [] else FromNat(n / 2, width - 1) + [n % 2 == 1]
  }

  function Zeros(n: nat): (b: Bits)
    ensures |b| == n && forall i :: 0 <= i < n ==> !b[i]
  {
    seq(n, _ => false)
  }

  function Ones(n: nat): (b: Bits)
    ensures |b| == n && forall i :: 0 <= i < n ==> b[i]
  {
    seq(n, _ => true)
  }

  lemma {:induction false} FromNatToNat(b: Bits)
    ensures FromNat(ToNat(b), |b|) == b
  {
    if |b| > 0 {
      FromNatToNat(b[..|b| - 1]);
    }
  }

  lemma {:induction false} ToNatFromNat(n: nat, width: nat)
    requires n < Pow2(width)
    ensures ToNat(FromNat(n, width)) == n
  {
    if width > 0 {
      var b := FromNat(n, width);
      assert b[..width - 1] == FromNat(n / 2, width - 1);
      ToNatFromNat(n / 2, width - 1);
    }
  }

  /** The low bits of a number do not depend on what is above them. */
  lemma {:induction false} FromNatLow(n: nat, k: nat, m: nat)
    ensures FromNat(n + m * Pow2(k), k) == FromNat(n, k)
  {
    if k > 0 {
      var big := n + m * Pow2(k);
      MulTwice(m, Pow2(k - 1));
      assert big / 2 == n / 2 + m * Pow2(k - 1) && big % 2 == n % 2;
      FromNatLow(n / 2, k - 1, m);
    }
  }

  lemma {:induction false} FromNatSuffix(n: nat, k: nat, extra: nat)
    ensures FromNat(n, extra + k)[extra..] == FromNat(n, k)
  {
    if k > 0 {
      FromNatSuffix(n / 2, k - 1, extra);
    }
  }

  lemma ModUnique(n: int, d: int, q: int, r: int)
    requires 0 <= r < d && n == q * d + r
    ensures n / d == q && n % d == r
  {
    if n / d < q {
      assert (q - n / d) * d >= d by { MulMono(1, q - n / d, d); }
    } else if n / d > q {
      assert (n / d - q) * d >= d by { MulMono(1, n / d - q, d); }
    }
  }

  lemma MulMono(a: int, b: int, d: int)
    requires a <= b && d >= 0
    ensures a * d <= b * d
  {
  }

  lemma MulTwice(a: int, p: int)
    ensures a * (2 * p) == 2 * (a * p)
  {
  }

  lemma {:induction false} ToNatConcat(a: Bits, b: Bits)
    ensures ToNat(a + b) == ToNat(a) * Pow2(|b|) + ToNat(b)
  {
    if |b| == 0 {
      assert a + b == a;
    } else {
      var b' := b[..|b| - 1];
      var last := Bit(b[|b| - 1]);
      assert (a + b)[..|a + b| - 1] == a + b';
      calc {
        ToNat(a + b);
        2 * ToNat(a + b') + last;
        { ToNatConcat(a, b'); }
        2 * (ToNat(a) * Pow2(|b'|)) + 2 * ToNat(b') + last;
        { MulTwice(ToNat(a), Pow2(|b'|)); }
        ToNat(a) * (2 * Pow2(|b'|)) + ToNat(b);
      }
    }
  }

  lemma {:induction false} ToNatZeros(n: nat)
    ensures ToNat(Zeros(n)) == 0
  {
    if n > 0 {
      assert Zeros(n)[..n - 1] == Zeros(n - 1);
      ToNatZeros(n - 1);
    }
  }

  /** Leading zeros do not count. */
  lemma ToNatLeadingZeros(n: nat, b: Bits)
    ensures ToNat(Zeros(n) + b) == ToNat(b)
  {
    ToNatConcat(Zeros(n), b);
    ToNatZeros(n);
  }

  lemma {:induction false} FromNatLowMask(k: nat, width: nat)
    requires k <= width
    ensures FromNat(Pow2(k) - 1, width) == Zeros(width - k) + Ones(k)
    decreases width
  {
    if width == 0 {
    } else if k == 0 {
      FromNatLowMask(0, width - 1);
    } else {
      FromNatLowMask(k - 1, width - 1);
      assert (Pow2(k) - 1) / 2 == Pow2(k - 1) - 1;
    }
  }

  lemma Assoc(a: Bits, b: Bits, c: Bits)
    ensures a + b + c == a + (b + c)
  {
  }

  // ---------------------------------------------------------------- octets

  function ByteBits(b: Byte): (r: Bits)
    ensures |r| == 8
  {
    FromNat(b, 8)
  }

  /** The bits of an octet string, in order. */
  function BitString(bytes: seq<Byte>): (r: Bits)
    ensures |r| == 8 * |bytes|
  {
    if |bytes| == 0 then [] else BitString(bytes[..|bytes| - 1]) + ByteBits(bytes[|bytes| - 1])
  }

  function BitsByte(b: Bits): (r: Byte)
    requires |b| == 8
  {
    assert Pow2(8) == 256;
    ToNat(b)
  }

  /** The whole octets at the front of a bit string; fewer than eight bits may remain. */
  function Octets(b: Bits): (r: seq<Byte>)
    ensures |r| == |b| / 8
  {
    if |b| < 8 then [] else [BitsByte(b[..8])] + Octets(b[8..])
  }

  lemma ByteBitsInverse(b: Byte)
    ensures BitsByte(ByteBits(b)) == b
  {
    ToNatFromNat(b, 8);
    assert Pow2(8) == 256;
  }

  lemma {:induction false} BitStringConcat(a: seq<Byte>, b: seq<Byte>)
    ensures BitString(a + b) == BitString(a) + BitString(b)
  {
    if |b| == 0 {
      assert a + b == a;
    } else {
      assert (a + b)[..|a + b| - 1] == a + b[..|b| - 1];
      BitStringConcat(a, b[..|b| - 1]);
    }
  }

  /** Reading octets back, with a tail shorter than an octet, gives the octets. */
  lemma {:induction false} OctetsOfBitString(bytes: seq<Byte>, tail: Bits)
    requires |tail| < 8
    ensures Octets(BitString(bytes) + tail) == bytes
  {
    if |bytes| > 0 {
      var rest := bytes[1..];
      assert bytes == bytes[..1] + rest;
      BitStringConcat(bytes[..1], rest);
      BitStringSingle(bytes[0]);
      CutAfter(ByteBits(bytes[0]), BitString(rest), tail);
      ByteBitsInverse(bytes[0]);
      OctetsOfBitString(rest, tail);
    }
  }

  /** Writing back whole octets gives the bits they came from. */
  lemma {:induction false} BitStringOfOctets(b: Bits)
    ensures BitString(Octets(b)) == b[..|b| / 8 * 8]
  {
    if |b| >= 8 {
      var head, rest := [BitsByte(b[..8])], Octets(b[8..]);
      BitStringConcat(head, rest);
      BitStringSingle(head[0]);
      FromNatToNat(b[..8]);
      BitStringOfOctets(b[8..]);
      TakeAfter(b, 8, |b| / 8 * 8);
    }
  }

  lemma BitStringSingle(b: Byte)
    ensures BitString([b]) == ByteBits(b)
  {
    assert [b][..0] == [];
  }

  lemma TakeAfter(b: Bits, i: nat, n: nat)
    requires i <= n <= |b|
    ensures b[..i] + b[i..][..n - i] == b[..n]
  {
  }

  // ---------------------------------------------------------------- groups

  /** The bit string cut into groups of `w` bits, the last one filled with zeros. */
  function Groups(b: Bits, w: nat): (r: seq<Bits>)
    requires w > 0
    ensures forall g :: g in r ==> |g| == w
  {
    if |b| == 0 then []
    else if |b| < w then [b + Zeros(w - |b|)]
    else [b[..w]] + Groups(b[w..], w)
  }

  function Flatten(gs: seq<Bits>): Bits {
    if |gs| == 0 then [] else gs[0] + Flatten(gs[1..])
  }

  /** How many zero bits the last group carries. */
  function Fill(n: nat, w: nat): (r: nat)
    requires w > 0
    ensures r < w
  {
    if n == 0 then 0 else if n < w then w - n else Fill(n - w, w)
  }

  lemma {:induction false} FlattenGroups(b: Bits, w: nat)
    requires w > 0
    ensures Flatten(Groups(b, w)) == b + Zeros(Fill(|b|, w))
  {
    if |b| == 0 {
    } else if |b| < w {
      FlattenCons(b + Zeros(w - |b|), []);
    } else {
      var rest, tail := b[w..], Zeros(Fill(|b|, w));
      calc {
        Flatten(Groups(b, w));
        { FlattenCons(b[..w], Groups(rest, w)); }
        b[..w] + Flatten(Groups(rest, w));
        { FlattenGroups(rest, w); }
        b[..w] + (rest + tail);
        { SplitThen(b, w, tail); }
        b + tail;
      }
    }
  }

  lemma SplitThen(b: Bits, i: nat, tail: Bits)
    requires i <= |b|
    ensures b[..i] + (b[i..] + tail) == b + tail
  {
  }

  lemma FlattenCons(g: Bits, gs: seq<Bits>)
    ensures Flatten([g] + gs) == g + Flatten(gs)
  {
    assert ([g] + gs)[1..] == gs;
  }

  lemma MulStep(w: nat, n: nat)
    ensures w * (n + 1) == w + w * n
  {
  }

  lemma {:induction false} GroupsLength(b: Bits, w: nat)
    requires w > 0
    ensures w * |Groups(b, w)| == |b| + Fill(|b|, w)
  {
    if |b| == 0 {
    } else if |b| < w {
    } else {
      GroupsLength(b[w..], w);
      MulStep(w, |Groups(b[w..], w)|);
    }
  }

  /** Cutting whole groups followed by a partial one. */
  lemma {:induction false} GroupsOfParts(gs: seq<Bits>, rest: Bits, w: nat)
    requires w > 0 && (forall g :: g in gs ==> |g| == w) && |rest| < w
    ensures Groups(Flatten(gs) + rest, w)
         == gs + if rest == [] then [] else [rest + Zeros(w - |rest|)]
  {
    if |gs| == 0 {
      assert Flatten(gs) + rest == rest;
    } else {
      var g, more := gs[0], gs[1..];
      assert g in gs;
      CutAfter(g, Flatten(more), rest);
      calc {
        Groups(Flatten(gs) + rest, w);
        [g] + Groups(Flatten(more) + rest, w);
        { GroupsOfParts(more, rest, w); }
        [g] + (more + if rest == [] then [] else [rest + Zeros(w - |rest|)]);
      }
    }
  }

  lemma CutAfter(g: Bits, more: Bits, rest: Bits)
    ensures (g + more + rest)[..|g|] == g
    ensures (g + more + rest)[|g|..] == more + rest
  {
  }

  lemma {:induction false} FlattenAppend(a: seq<Bits>, b: seq<Bits>)
    ensures Flatten(a + b) == Flatten(a) + Flatten(b)
  {
    if |a| == 0 {
      assert a + b == b;
    } else {
      assert (a + b)[1..] == a[1..] + b;
      FlattenAppend(a[1..], b);
    }
  }

  lemma {:induction false} FlattenLength(gs: seq<Bits>, w: nat)
    requires forall g :: g in gs ==> |g| == w
    ensures |Flatten(gs)| == w * |gs|
  {
    if |gs| > 0 {
      assert gs[0] in gs;
      FlattenLength(gs[1..], w);
      MulStep(w, |gs[1..]|);
    }
  }

  lemma GroupsOfFlatten(gs: seq<Bits>, w: nat)
    requires w > 0 && forall g :: g in gs ==> |g| == w
    ensures Groups(Flatten(gs), w) == gs && |Flatten(gs)| == w * |gs|
  {
    GroupsOfParts(gs, [], w);
    assert Flatten(gs) + [] == Flatten(gs);
    FlattenLength(gs, w);
  }

  /** Regrouping octets into groups of at most eight bits loses nothing. */
  lemma RegroupRoundTrip(bytes: seq<Byte>, w: nat)
    requires 0 < w <= 8
    ensures Octets(Flatten(Groups(BitString(bytes), w))) == bytes
  {
    FlattenGroups(BitString(bytes), w);
    OctetsOfBitString(bytes, Zeros(Fill(8 * |bytes|, w)));
  }
}
