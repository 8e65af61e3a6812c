/** The base32 codec of apps/auth/src/lib/auth/totp.ts: a 32-bit shift register that is never
    masked, so everything above its low twelve bits is debris from earlier octets. */
module Base32 {
  import opened BitStrings
  import opened Words
  import opened ShiftRegister
  import opened JsText
  import Radix

  datatype Decoded = Bytes(bytes: seq<Byte>) | InvalidCharacter

  function Symbol(i: nat): char
    requires i < 32
  {
    if i < 26 then (65 + i) as char else (24 + i) as char
  }

  function Alphabet(): (s: string)
    ensures |s| == 32 && forall i :: 0 <= i < 32 ==> s[i] == Symbol(i)
  {
    seq(32, i requires 0 <= i < 32 => Symbol(i))
  }

  lemma AlphabetSpelled()
    ensures Alphabet() == "ABCDEFGHIJKLMNOPQRSTUVWXYZ234567"
  {
  }

  lemma AlphabetIsBase32()
    ensures Radix.Alphabet(Alphabet(), 5)
  {
    Pow2Values();
  }

  /** Section 6 of RFC 4648 without padding. */
  ghost function Rfc4648(bytes: seq<Byte>): (s: string)
    ensures forall c :: c in s ==> c in Alphabet()
  {
    AlphabetIsBase32();
    Radix.Encode(Alphabet(), 5, bytes)
  }

  // ---------------------------------------------------------------- encoding

  /** The text spells the groups. */
  ghost predicate Spelled(gs: seq<Bits>, out: string) {
    && (forall g :: g in gs ==> |g| == 5)
    && |out| == |gs|
    && forall i :: 0 <= i < |gs| ==> ToNat(gs[i]) < 32 && out[i] == Symbol(ToNat(gs[i]))
  }

  /** After `stream` has been read: the groups spelled so far and the bits still held. */
  ghost predicate Encoding(stream: Bits, gs: seq<Bits>, held: Bits, value: Word, bits: nat, out: string) {
    stream == Flatten(gs) + held && Ends(value, held) && |held| == bits && Spelled(gs, out)
  }

  lemma TakeOctet(stream: Bits, gs: seq<Bits>, held: Bits, value: Word, bits: nat, out: string, b: Byte)
    requires Encoding(stream, gs, held, value, bits, out) && bits < 5
    ensures Encoding(stream + ByteBits(b), gs, held + ByteBits(b), Or(Shl(value, 8), OfNat(b)), bits + 8, out)
  {
    Pow2Values();
    ShiftIn(value, held, b, 8);
    Assoc(Flatten(gs), held, ByteBits(b));
  }

  lemma SymbolOfGroup(g: Bits)
    requires |g| == 5
    ensures ToNat(g) < 32
  {
    Pow2Values();
  }

  lemma SpellOneMore(gs: seq<Bits>, out: string, g: Bits)
    requires Spelled(gs, out) && |g| == 5
    ensures ToNat(g) < 32 && Spelled(gs + [g], out + [Symbol(ToNat(g))])
  {
    SymbolOfGroup(g);
  }

  lemma FlattenOneMore(gs: seq<Bits>, g: Bits, rest: Bits)
    ensures Flatten(gs) + (g + rest) == Flatten(gs + [g]) + rest
  {
    FlattenAppend(gs, [g]);
    FlattenCons(g, []);
    assert [g] + [] == [g] && g + [] == g;
    Assoc(Flatten(gs), g, rest);
  }

  /** The symbol `ALPHABET[(value >>> (bits - 5)) & 31]`. */
  function Emitted(value: Word, bits: nat): char
    requires 5 <= bits <= 12
  {
    Pow2Values();
    MaskBelow(Shr(value, bits - 5), 5, 31);
    Alphabet()[Unsigned(And(Shr(value, bits - 5), OfNat(31)))]
  }

  lemma EmitGroup(stream: Bits, gs: seq<Bits>, g: Bits, rest: Bits, value: Word, bits: nat, out: string)
    requires Encoding(stream, gs, g + rest, value, bits, out) && |g| == 5 && bits <= 12
    ensures Encoding(stream, gs + [g], rest, value, bits - 5, out + [Emitted(value, bits)])
  {
    LowMaskIs5();
    ReadOut(value, g, rest);
    SpellOneMore(gs, out, g);
    FlattenOneMore(gs, g, rest);
  }

  /** Whatever 20 bits of debris stand on top, the symbol is the same. */
  lemma DebrisNeverRead(v: Word, w: Word, bits: nat)
    requires 5 <= bits <= 12 && v[20..] == w[20..]
    ensures Emitted(v, bits) == Emitted(w, bits)
  {
    LowMaskIs5();
    var held := v[32 - bits..];
    var g, rest := SplitHeld(held);
    assert v[32 - bits..] == v[20..][12 - bits..] && w[32 - bits..] == w[20..][12 - bits..];
    ReadOut(v, g, rest);
    ReadOut(w, g, rest);
  }

  lemma LowMaskIs5()
    ensures OfNat(31) == LowMask(5)
  {
    Pow2Values();
    LowMaskIs(5, 31);
  }

  /** The symbol `ALPHABET[(value << (5 - bits)) & 31]`. */
  function EmittedLast(value: Word, bits: nat): char
    requires 0 < bits < 5
  {
    Pow2Values();
    MaskBelow(Shl(value, 5 - bits), 5, 31);
    Alphabet()[Unsigned(And(Shl(value, 5 - bits), OfNat(31)))]
  }

  lemma Finish(stream: Bits, gs: seq<Bits>, held: Bits, value: Word, bits: nat, out: string, bytes: seq<Byte>)
    requires Encoding(stream, gs, held, value, bits, out) && bits < 5 && stream == BitString(bytes)
    ensures bits == 0 ==> out == Rfc4648(bytes)
    ensures bits > 0 ==> out + [EmittedLast(value, bits)] == Rfc4648(bytes)
  {
    AlphabetIsBase32();
    LowMaskIs5();
    ReadLast(value, held, 5);
    GroupsOfParts(gs, held, 5);
    var last := held + Zeros(5 - bits);
    SpellOneMore(gs, out, last);
    if bits == 0 {
      SpelledIs(gs, out);
    } else {
      SpelledIs(gs + [last], out + [Symbol(ToNat(last))]);
    }
  }

  lemma SpelledIs(gs: seq<Bits>, out: string)
    requires Spelled(gs, out)
    ensures Radix.Alphabet(Alphabet(), 5)
    ensures Radix.Spell(Alphabet(), 5, gs) == out
  {
    AlphabetIsBase32();
  }

  lemma BitStringSnoc(bytes: seq<Byte>, n: nat)
    requires n < |bytes|
    ensures BitString(bytes[..n + 1]) == BitString(bytes[..n]) + ByteBits(bytes[n])
  {
    assert bytes[..n + 1][..n] == bytes[..n];
  }

  lemma Start()
    ensures Encoding([], [], [], OfNat(0), 0, "")
  {
  }

  method Base32Encode(bytes: seq<Byte>) returns (out: string)
    ensures out == Rfc4648(bytes)
  {
    var bits := 0;
    var value: Word := OfNat(0);
    out := "";
    ghost var stream: Bits, gs: seq<Bits>, held: Bits := [], [], [];
    Start();
    for n := 0 to |bytes|
      invariant stream == BitString(bytes[..n])
      invariant 0 <= bits < 5 && Encoding(stream, gs, held, value, bits, out)
    {
      var b := bytes[n];
      BitStringSnoc(bytes, n);
      TakeOctet(stream, gs, held, value, bits, out, b);
      value := Or(Shl(value, 8), OfNat(b));
      stream, held := stream + ByteBits(b), held + ByteBits(b);
      bits := bits + 8;
      while bits >= 5
        invariant 0 <= bits <= 12 && Encoding(stream, gs, held, value, bits, out)
      {
        ghost var g, rest := SplitHeld(held);
        EmitGroup(stream, gs, g, rest, value, bits, out);
        out := out + [Emitted(value, bits)];
        gs, held := gs + [g], rest;
        bits := bits - 5;
      }
    }
    assert bytes[..|bytes|] == bytes;
    Finish(stream, gs, held, value, bits, out, bytes);
    if bits > 0 {
      out := out + [EmittedLast(value, bits)];
    }
  }

  lemma SplitHeld(held: Bits) returns (g: Bits, rest: Bits)
    requires |held| >= 5
    ensures held == g + rest && |g| == 5
  {
    g, rest := held[..5], held[5..];
  }

  lemma EncodedLength(bytes: seq<Byte>)
    ensures |Rfc4648(bytes)| == (8 * |bytes| + 4) / 5
  {
    AlphabetIsBase32();
    Radix.EncodeLength(Alphabet(), 5, bytes);
  }

  // ---------------------------------------------------------------- decoding

  /** The text the loop reads: upper-cased, trailing `=` removed, then white space removed. */
  function Clean(input: string, upper: char -> string): string {
    StripSpaces(StripTrailing(MapChars(input, upper), '='))
  }

  ghost predicate InAlphabet(s: string) { forall c :: c in s ==> c in Alphabet() }

  ghost function DecodedText(s: string): Decoded {
    AlphabetIsBase32();
    if InAlphabet(s) then Bytes(Radix.Decode(Alphabet(), 5, s)) else InvalidCharacter
  }

  ghost function TextBits(s: string): Bits
    requires InAlphabet(s)
  {
    AlphabetIsBase32();
    Radix.TextBits(Alphabet(), 5, s)
  }

  /** After the text spelling `stream` has been read: the octets written and the bits held. */
  ghost predicate Decoding(stream: Bits, out: seq<Byte>, held: Bits, value: Word, bits: nat) {
    stream == BitString(out) + held && Ends(value, held) && |held| == bits
  }

  lemma TakeSymbol(stream: Bits, out: seq<Byte>, held: Bits, value: Word, bits: nat, idx: nat)
    requires Decoding(stream, out, held, value, bits) && bits < 8 && idx < 32
    ensures Decoding(stream + FromNat(idx, 5), out, held + FromNat(idx, 5),
                     Or(Shl(value, 5), OfNat(idx)), bits + 5)
  {
    Pow2Values();
    ShiftIn(value, held, idx, 5);
    Assoc(BitString(out), held, FromNat(idx, 5));
  }

  lemma BitStringOneMore(out: seq<Byte>, g: Bits, rest: Bits)
    requires |g| == 8
    ensures ToNat(g) < 256 && BitString(out) + (g + rest) == BitString(out + [ToNat(g)]) + rest
  {
    Pow2Values();
    BitStringConcat(out, [ToNat(g)]);
    BitStringSingle(ToNat(g));
    FromNatToNat(g);
    Assoc(BitString(out), g, rest);
  }

  /** The octet `(value >>> (bits - 8)) & 0xff`. */
  function Pushed(value: Word, bits: nat): Byte
    requires 8 <= bits <= 12
  {
    Pow2Values();
    MaskBelow(Shr(value, bits - 8), 8, 0xff);
    Unsigned(And(Shr(value, bits - 8), OfNat(0xff)))
  }

  lemma EmitOctet(stream: Bits, out: seq<Byte>, g: Bits, rest: Bits, value: Word, bits: nat)
    requires Decoding(stream, out, g + rest, value, bits) && |g| == 8 && bits <= 12
    ensures Decoding(stream, out + [Pushed(value, bits)], rest, value, bits - 8)
  {
    Pow2Values();
    LowMaskIs(8, 0xff);
    ReadOut(value, g, rest);
    BitStringOneMore(out, g, rest);
  }

  lemma TextStep(clean: string, n: nat)
    requires n < |clean| && InAlphabet(clean[..n]) && clean[n] in Alphabet()
    ensures InAlphabet(clean[..n + 1])
    ensures TextBits(clean[..n + 1]) == TextBits(clean[..n]) + FromNat(Radix.IndexOf(Alphabet(), clean[n]), 5)
  {
    AlphabetIsBase32();
    assert clean[..n + 1] == clean[..n] + [clean[n]];
    Radix.TextBitsAppend(Alphabet(), 5, clean[..n], clean[n]);
  }

  lemma DecodingDone(clean: string, stream: Bits, out: seq<Byte>, held: Bits, value: Word, bits: nat)
    requires InAlphabet(clean) && stream == TextBits(clean)
    requires Decoding(stream, out, held, value, bits) && bits < 8
    ensures DecodedText(clean) == Bytes(out)
  {
    OctetsOfBitString(out, held);
  }

  lemma StrayCharacter(clean: string, n: nat)
    requires n < |clean| && clean[n] !in Alphabet()
    ensures DecodedText(clean) == InvalidCharacter
  {
  }

  lemma SplitOctet(held: Bits) returns (g: Bits, rest: Bits)
    requires |held| >= 8
    ensures held == g + rest && |g| == 8
  {
    g, rest := held[..8], held[8..];
  }

  lemma StartDecoding()
    ensures InAlphabet("") && TextBits("") == [] && Decoding([], [], [], OfNat(0), 0)
  {
  }

  method Base32Decode(input: string, upper: char -> string) returns (r: Decoded)
    ensures r == DecodedText(Clean(input, upper))
  {
    hide Clean, TextBits, Decoding, DecodedText, Pushed, OfNat, Or, Shl, Alphabet, Radix.IndexOf;
    var clean := Clean(input, upper);
    var bits := 0;
    var value: Word := OfNat(0);
    var out: seq<Byte> := [];
    ghost var stream: Bits, held: Bits := [], [];
    StartDecoding();
    for n := 0 to |clean|
      invariant InAlphabet(clean[..n]) && stream == TextBits(clean[..n])
      invariant 0 <= bits < 8 && Decoding(stream, out, held, value, bits)
    {
      var idx := Radix.IndexOf(Alphabet(), clean[n]);
      if idx == -1 {
        StrayCharacter(clean, n);
        return InvalidCharacter;
      }
      TextStep(clean, n);
      TakeSymbol(stream, out, held, value, bits, idx);
      value := Or(Shl(value, 5), OfNat(idx));
      stream, held := stream + FromNat(idx, 5), held + FromNat(idx, 5);
      bits := bits + 5;
      if bits >= 8 {
        ghost var g, rest := SplitOctet(held);
        EmitOctet(stream, out, g, rest, value, bits);
        out := out + [Pushed(value, bits)];
        held := rest;
        bits := bits - 8;
      }
    }
    assert clean[..|clean|] == clean;
    DecodingDone(clean, stream, out, held, value, bits);
    r := Bytes(out);
  }

  // ---------------------------------------------------------------- what the two undo

  /** `noisy` is `s` with letters in either case and white space put in anywhere. */
  predicate Disguises(noisy: string, s: string) {
    if noisy == "" then s == ""
    else if IsSpace(noisy[0]) then Disguises(noisy[1..], s)
    else s != "" && (noisy[0] == s[0] || ('A' <= s[0] <= 'Z' && noisy[0] == s[0] + 32 as char))
         && Disguises(noisy[1..], s[1..])
  }

  lemma SymbolShape(c: char)
    requires c in Alphabet()
    ensures ('A' <= c <= 'Z' || '2' <= c <= '7') && !IsSpace(c)
  {
  }

  lemma {:induction false} UndoDisguise(noisy: string, s: string, upper: char -> string)
    requires UpperCasing(upper) && Disguises(noisy, s) && InAlphabet(s)
    ensures StripSpaces(MapChars(noisy, upper)) == s
    ensures forall c :: c in MapChars(noisy, upper) ==> c in s || IsSpace(c)
  {
    if noisy != "" {
      var up := upper(noisy[0]);
      if IsSpace(noisy[0]) {
        UndoDisguise(noisy[1..], s, upper);
      } else {
        SymbolShape(s[0]);
        assert s == [s[0]] + s[1..];
        UndoDisguise(noisy[1..], s[1..], upper);
        assert up == [s[0]];
      }
      assert up + MapChars(noisy[1..], upper) == MapChars(noisy, upper);
      StripSpacesConcat(up, MapChars(noisy[1..], upper));
    }
  }

  lemma {:induction false} PaddingUpper(n: nat, upper: char -> string)
    requires UpperCasing(upper)
    ensures MapChars(Repeat('=', n), upper) == Repeat('=', n)
  {
    if n > 0 {
      assert Repeat('=', n)[1..] == Repeat('=', n - 1);
      PaddingUpper(n - 1, upper);
    }
  }

  /** Decoding undoes encoding, whatever the case of the letters and wherever white space was
      put in, with any number of `=` appended at the very end. */
  lemma RoundTrip(bytes: seq<Byte>, noisy: string, padding: nat, upper: char -> string)
    requires UpperCasing(upper) && Disguises(noisy, Rfc4648(bytes))
    ensures DecodedText(Clean(noisy + Repeat('=', padding), upper)) == Bytes(bytes)
  {
    AlphabetIsBase32();
    var s, text := Rfc4648(bytes), MapChars(noisy, upper);
    UndoDisguise(noisy, s, upper);
    MapCharsConcat(noisy, Repeat('=', padding), upper);
    PaddingUpper(padding, upper);
    if text != "" {
      assert text[|text| - 1] in text;
      if text[|text| - 1] in s { SymbolShape(text[|text| - 1]); }
    }
    StripTrailingRepeat(text, '=', padding);
    Radix.DecodeEncode(Alphabet(), 5, bytes);
  }

  lemma {:induction false} DisguisesSelf(s: string)
    requires InAlphabet(s)
    ensures Disguises(s, s)
  {
    if s != "" {
      assert s[0] in s;
      SymbolShape(s[0]);
      DisguisesSelf(s[1..]);
    }
  }

  lemma PlainRoundTrip(bytes: seq<Byte>, upper: char -> string)
    requires UpperCasing(upper)
    ensures DecodedText(Clean(Rfc4648(bytes), upper)) == Bytes(bytes)
  {
    DisguisesSelf(Rfc4648(bytes));
    RoundTrip(bytes, Rfc4648(bytes), 0, upper);
    assert Rfc4648(bytes) + Repeat('=', 0) == Rfc4648(bytes);
  }

  lemma {:induction false} SpacesUpper(ws: string, upper: char -> string)
    requires UpperCasing(upper) && forall c :: c in ws ==> IsSpace(c)
    ensures MapChars(ws, upper) == ws
  {
    if ws != "" {
      assert ws[0] in ws;
      SpacesUpper(ws[1..], upper);
    }
  }

  lemma EqualsSurvives(before: string, ws: string)
    requires ws != "" && forall c :: c in ws ==> IsSpace(c)
    ensures '=' in StripSpaces(StripTrailing(before + "=" + ws, '='))
  {
    var whole := before + "=" + ws;
    assert whole[|whole| - 1] == ws[|ws| - 1] && ws[|ws| - 1] in ws;
    assert whole[|before|] == '=';
  }

  /** White space after the padding is fatal: `=` is removed before white space is, and only
      at the end, so it stays in the text and is no base32 character. */
  lemma SpaceAfterPaddingRejected(text: string, ws: string, upper: char -> string)
    requires UpperCasing(upper) && ws != "" && forall c :: c in ws ==> IsSpace(c)
    ensures DecodedText(Clean(text + "=" + ws, upper)) == InvalidCharacter
  {
    MapCharsConcat(text + "=", ws, upper);
    MapCharsConcat(text, "=", upper);
    SpacesUpper(ws, upper);
    PaddingUpper(1, upper);
    assert Repeat('=', 1) == "=";
    EqualsSurvives(MapChars(text, upper), ws);
    if '=' in Alphabet() { SymbolShape('='); }
  }

  /** Only `=` and white space. */
  predicate IsTail(tail: string) { forall c :: c in tail ==> c == '=' || IsSpace(c) }

  /** Some white space stands after some `=`. */
  predicate SpaceAfterEquals(tail: string) {
    tail != "" && ((tail[0] == '=' && exists c :: c in tail[1..] && IsSpace(c)) || SpaceAfterEquals(tail[1..]))
  }

  lemma {:induction false} TailUpper(tail: string, upper: char -> string)
    requires UpperCasing(upper) && IsTail(tail)
    ensures MapChars(tail, upper) == tail
  {
    if tail != "" {
      assert tail[0] in tail && forall c :: c in tail[1..] ==> c in tail;
      TailUpper(tail[1..], upper);
    }
  }

  /** A tail without white space after `=` is white space and then `=`. */
  lemma {:induction false} SplitTail(tail: string) returns (ws: string, n: nat)
    requires IsTail(tail) && !SpaceAfterEquals(tail)
    ensures tail == ws + Repeat('=', n) && forall c :: c in ws ==> IsSpace(c)
  {
    if tail == "" {
      ws, n := "", 0;
      assert Repeat('=', 0) == "";
    } else if tail[0] == '=' {
      assert forall c :: c in tail[1..] ==> c in tail;
      ws, n := "", |tail|;
      assert forall i :: 1 <= i < |tail| ==> tail[i] in tail[1..];
      assert tail == Repeat('=', n);
    } else {
      assert tail[0] in tail && forall c :: c in tail[1..] ==> c in tail;
      ws, n := SplitTail(tail[1..]);
      ws := [tail[0]] + ws;
      assert tail == [tail[0]] + tail[1..];
    }
  }

  lemma {:induction false} DisguisesWith(noisy: string, s: string, ws: string)
    requires Disguises(noisy, s) && forall c :: c in ws ==> IsSpace(c)
    requires InAlphabet(s)
    ensures Disguises(noisy + ws, s)
  {
    if noisy == "" {
      assert noisy + ws == ws;
      SpacesDisguiseNothing(ws);
    } else {
      assert (noisy + ws)[1..] == noisy[1..] + ws;
      DisguisesWith(noisy[1..], if IsSpace(noisy[0]) then s else s[1..], ws);
    }
  }

  lemma {:induction false} SpacesDisguiseNothing(ws: string)
    requires forall c :: c in ws ==> IsSpace(c)
    ensures Disguises(ws, "")
  {
    if ws != "" {
      assert ws[0] in ws && forall c :: c in ws[1..] ==> c in ws;
      SpacesDisguiseNothing(ws[1..]);
    }
  }

  /** The last run of `=` is all that goes: an `=` with white space after it stays. */
  lemma {:induction false} EqualsStays(before: string, tail: string)
    requires SpaceAfterEquals(tail)
    ensures '=' in StripSpaces(StripTrailing(before + tail, '='))
    decreases |tail|
  {
    if tail[0] == '=' && exists c :: c in tail[1..] && IsSpace(c) {
      var whole, kept := before + tail, StripTrailing(before + tail, '=');
      var c :| c in tail[1..] && IsSpace(c);
      var i :| 0 <= i < |tail[1..]| && tail[1..][i] == c;
      assert whole[|before| + 1 + i] == c;
      assert |kept| > |before| + 1 + i;
      assert kept[|before|] == '=';
    } else {
      assert before + tail == (before + [tail[0]]) + tail[1..];
      EqualsStays(before + [tail[0]], tail[1..]);
    }
  }

  /** Exactly which tails of `=` and white space a text may end in: those with no white space after
      an `=`. */
  lemma TailAccepted(bytes: seq<Byte>, noisy: string, tail: string, upper: char -> string)
    requires UpperCasing(upper) && Disguises(noisy, Rfc4648(bytes)) && IsTail(tail)
    ensures DecodedText(Clean(noisy + tail, upper)) == Bytes(bytes) <==> !SpaceAfterEquals(tail)
    ensures SpaceAfterEquals(tail) ==> DecodedText(Clean(noisy + tail, upper)) == InvalidCharacter
  {
    hide Rfc4648, StripTrailing, StripSpaces, MapChars;
    if SpaceAfterEquals(tail) {
      MapCharsConcat(noisy, tail, upper);
      TailUpper(tail, upper);
      EqualsStays(MapChars(noisy, upper), tail);
      if '=' in Alphabet() { SymbolShape('='); }
    } else {
      var ws, n := SplitTail(tail);
      DisguisesWith(noisy, Rfc4648(bytes), ws);
      RoundTrip(bytes, noisy + ws, n, upper);
      assert noisy + tail == (noisy + ws) + Repeat('=', n);
    }
  }

  /** The lengths an encoding can have, and no bit set past the last whole octet. */
  ghost predicate Canonical(s: string)
    requires InAlphabet(s)
  {
    var b := TextBits(s);
    |s| % 8 in {0, 2, 4, 5, 7} && Radix.AllZero(b[|b| / 8 * 8..])
  }

  lemma SpareBits(n: nat)
    ensures (5 * n) % 8 < 5 <==> n % 8 in {0, 2, 4, 5, 7}
  {
    var q, r := n / 8, n % 8;
    assert 5 * n == 8 * (5 * q) + 5 * r;
    assert (5 * n) % 8 == (5 * r) % 8;
  }

  /** Encoding undoes decoding on exactly the canonical texts. */
  lemma EncodeDecode(s: string)
    requires InAlphabet(s)
    ensures Rfc4648(DecodedText(s).bytes) == s <==> Canonical(s)
  {
    AlphabetIsBase32();
    Radix.EncodeDecode(Alphabet(), 5, s);
    Radix.TextBitsLength(Alphabet(), 5, s);
    SpareBits(|s|);
  }
}
