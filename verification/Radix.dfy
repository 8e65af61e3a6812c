/** Text in base 2^w, as base32 (w = 5) and base64 (w = 6) use it: the bit string of the
    octets is cut into groups of w bits and each group names one symbol of an alphabet. */
module Radix {
  import opened BitStrings

  ghost predicate Alphabet(alphabet: string, w: nat) {
    && 0 < w <= 8
    && |alphabet| == Pow2(w)
    && forall i, j :: 0 <= i < j < |alphabet| ==> alphabet[i] != alphabet[j]
  }

  /** `alphabet.indexOf(c)` */
  function IndexOf(alphabet: string, c: char): (i: int)
    ensures -1 <= i < |alphabet|
    ensures i >= 0 ==> alphabet[i] == c && c !in alphabet[..i]
    ensures i == -1 <==> c !in alphabet
  {
    if |alphabet| == 0 then -1
    else if alphabet[0] == c then 0
    else
      var i := IndexOf(alphabet[1..], c);
      assert i >= 0 ==> alphabet[..i + 1] == [alphabet[0]] + alphabet[1..][..i];
      assert alphabet == [alphabet[0]] + alphabet[1..];
      if i == -1 then -1 else i + 1
  }

  function Spell(alphabet: string, w: nat, gs: seq<Bits>): (s: string)
    requires Alphabet(alphabet, w) && forall g :: g in gs ==> |g| == w
    ensures |s| == |gs| && forall c :: c in s ==> c in alphabet
  {
    seq(|gs|, i requires 0 <= i < |gs| => (assert gs[i] in gs; alphabet[ToNat(gs[i])]))
  }

  function Unspell(alphabet: string, w: nat, s: string): (gs: seq<Bits>)
    requires Alphabet(alphabet, w) && forall c :: c in s ==> c in alphabet
    ensures |gs| == |s| && forall g :: g in gs ==> |g| == w
  {
    seq(|s|, i requires 0 <= i < |s| => FromNat(IndexOf(alphabet, s[i]), w))
  }

  lemma IndexOfSymbol(alphabet: string, w: nat, i: nat)
    requires Alphabet(alphabet, w) && i < |alphabet|
    ensures IndexOf(alphabet, alphabet[i]) == i
  {
  }

  lemma UnspellSpell(alphabet: string, w: nat, gs: seq<Bits>)
    requires Alphabet(alphabet, w) && forall g :: g in gs ==> |g| == w
    ensures Unspell(alphabet, w, Spell(alphabet, w, gs)) == gs
  {
    forall i | 0 <= i < |gs|
      ensures Unspell(alphabet, w, Spell(alphabet, w, gs))[i] == gs[i]
    {
      assert gs[i] in gs;
      IndexOfSymbol(alphabet, w, ToNat(gs[i]));
      FromNatToNat(gs[i]);
    }
  }

  lemma SpellUnspell(alphabet: string, w: nat, s: string)
    requires Alphabet(alphabet, w) && forall c :: c in s ==> c in alphabet
    ensures Spell(alphabet, w, Unspell(alphabet, w, s)) == s
  {
    forall i | 0 <= i < |s|
      ensures Spell(alphabet, w, Unspell(alphabet, w, s))[i] == s[i]
    {
      var k := IndexOf(alphabet, s[i]);
      ToNatFromNat(k, w);
    }
  }

  function Encode(alphabet: string, w: nat, bytes: seq<Byte>): (s: string)
    requires Alphabet(alphabet, w)
    ensures forall c :: c in s ==> c in alphabet
  {
    Spell(alphabet, w, Groups(BitString(bytes), w))
  }

  /** The bits a text stands for. */
  function TextBits(alphabet: string, w: nat, s: string): (b: Bits)
    requires Alphabet(alphabet, w) && forall c :: c in s ==> c in alphabet
  {
    Flatten(Unspell(alphabet, w, s))
  }

  /** Bits beyond the last whole octet are dropped. */
  function Decode(alphabet: string, w: nat, s: string): (bytes: seq<Byte>)
    requires Alphabet(alphabet, w) && forall c :: c in s ==> c in alphabet
  {
    Octets(TextBits(alphabet, w, s))
  }

  lemma DecodeEncode(alphabet: string, w: nat, bytes: seq<Byte>)
    requires Alphabet(alphabet, w)
    ensures Decode(alphabet, w, Encode(alphabet, w, bytes)) == bytes
  {
    UnspellSpell(alphabet, w, Groups(BitString(bytes), w));
    RegroupRoundTrip(bytes, w);
  }

  lemma CeilDiv(m: nat, f: nat, w: nat, n: nat)
    requires f < w && w * n == m + f
    ensures (m + w - 1) / w == n
  {
    ModUnique(m + w - 1, w, n, w - 1 - f);
  }

  /** The number of symbols is the number of bits over w, rounded up. */
  lemma EncodeLength(alphabet: string, w: nat, bytes: seq<Byte>)
    requires Alphabet(alphabet, w)
    ensures |Encode(alphabet, w, bytes)| == (8 * |bytes| + w - 1) / w
  {
    GroupsLength(BitString(bytes), w);
    var n, f := |Encode(alphabet, w, bytes)|, Fill(8 * |bytes|, w);
    CeilDiv(8 * |bytes|, f, w, n);
  }

  lemma TextBitsLength(alphabet: string, w: nat, s: string)
    requires Alphabet(alphabet, w) && forall c :: c in s ==> c in alphabet
    ensures |TextBits(alphabet, w, s)| == w * |s|
  {
    GroupsOfFlatten(Unspell(alphabet, w, s), w);
  }

  lemma TextBitsAppend(alphabet: string, w: nat, s: string, c: char)
    requires Alphabet(alphabet, w) && forall x :: x in s + [c] ==> x in alphabet
    requires forall x :: x in s ==> x in alphabet
    ensures TextBits(alphabet, w, s + [c]) == TextBits(alphabet, w, s) + FromNat(IndexOf(alphabet, c), w)
  {
    var g := FromNat(IndexOf(alphabet, c), w);
    assert Unspell(alphabet, w, s + [c]) == Unspell(alphabet, w, s) + [g];
    FlattenAppend(Unspell(alphabet, w, s), [g]);
    FlattenCons(g, []);
    assert [g] + [] == [g];
    assert g + [] == g;
  }

  ghost predicate AllZero(b: Bits) { forall i :: 0 <= i < |b| ==> !b[i] }

  /** A text is what the encoder would have written for its own octets: no more than the
      last symbol carries leftover bits, and those are zero. */
  ghost predicate Canonical(alphabet: string, w: nat, s: string)
    requires Alphabet(alphabet, w) && forall c :: c in s ==> c in alphabet
  {
    var b := TextBits(alphabet, w, s);
    |b| % 8 < w && AllZero(b[|b| / 8 * 8..])
  }

  lemma {:induction false} FillUnique(n: nat, w: nat, f: nat, q: nat)
    requires w > 0 && f < w && n + f == w * q
    ensures Fill(n, w) == f
  {
    if n == 0 {
      if q > 0 { MulMono(1, q, w); }
    } else if n < w {
      if q > 1 { MulMono(2, q, w); }
    } else {
      MulMono(0, q, w);
      assert q > 0;
      MulStep(w, q - 1);
      FillUnique(n - w, w, f, q - 1);
    }
  }

  lemma EncodeDecode(alphabet: string, w: nat, s: string)
    requires Alphabet(alphabet, w) && forall c :: c in s ==> c in alphabet
    ensures Encode(alphabet, w, Decode(alphabet, w, s)) == s <==> Canonical(alphabet, w, s)
  {
    var b := TextBits(alphabet, w, s);
    var m := |b| / 8 * 8;
    var head, tail := b[..m], b[m..];
    assert b == head + tail;
    BitStringOfOctets(b);
    assert Encode(alphabet, w, Decode(alphabet, w, s)) == Spell(alphabet, w, Groups(head, w));
    TextBitsLength(alphabet, w, s);
    FlattenGroups(head, w);
    if Canonical(alphabet, w, s) {
      FillUnique(m, w, |tail|, |s|);
      assert tail == Zeros(|tail|);
      assert b == Flatten(Groups(head, w));
      GroupsOfFlatten(Groups(head, w), w);
      GroupsOfFlatten(Unspell(alphabet, w, s), w);
      SpellUnspell(alphabet, w, s);
    }
    if Encode(alphabet, w, Decode(alphabet, w, s)) == s {
      UnspellSpell(alphabet, w, Groups(head, w));
      assert b == head + Zeros(Fill(m, w));
      assert tail == Zeros(Fill(m, w));
    }
  }
}
