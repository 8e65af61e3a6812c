/** The base64url codec of apps/auth/src/lib/auth/oauth-pending-cookie.ts (section 5 of
    RFC 4648), built on `btoa` and `atob` (section 4 of RFC 4648). */
module Base64Url {
  import opened BitStrings
  import opened JsText
  import opened Words
  import Radix

  /** The symbols both alphabets share; 62 and 63 differ. */
  function Symbol(i: nat, c62: char, c63: char): char
    requires i < 64
  {
    if i < 26 then (65 + i) as char
    else if i < 52 then (71 + i) as char
    else if i < 62 then (i - 4) as char
    else if i == 62 then c62 else c63
  }

  function Standard(): (s: string)
    ensures |s| == 64 && forall i :: 0 <= i < 64 ==> s[i] == Symbol(i, '+', '/')
  {
    seq(64, i requires 0 <= i < 64 => Symbol(i, '+', '/'))
  }

  function UrlSafe(): (s: string)
    ensures |s| == 64 && forall i :: 0 <= i < 64 ==> s[i] == Symbol(i, '-', '_')
  {
    seq(64, i requires 0 <= i < 64 => Symbol(i, '-', '_'))
  }

  lemma SymbolsDiffer(i: nat, j: nat, c62: char, c63: char)
    requires i < j < 64 && (c62, c63) in {('+', '/'), ('-', '_')}
    ensures Symbol(i, c62, c63) != Symbol(j, c62, c63)
  {
  }

  lemma AlphabetsAreBase64()
    ensures Radix.Alphabet(Standard(), 6) && Radix.Alphabet(UrlSafe(), 6)
  {
    hide Symbol;
    Pow2Values();
    forall i, j | 0 <= i < j < 64
      ensures Standard()[i] != Standard()[j] && UrlSafe()[i] != UrlSafe()[j]
    {
      SymbolsDiffer(i, j, '+', '/');
      SymbolsDiffer(i, j, '-', '_');
    }
  }

  predicate IsUrlSafe(c: char) {
    'A' <= c <= 'Z' || 'a' <= c <= 'z' || '0' <= c <= '9' || c == '-' || c == '_'
  }

  lemma UrlSafeShape(c: char)
    requires c in UrlSafe()
    ensures IsUrlSafe(c)
  {
  }

  // ---------------------------------------------------------------- btoa and atob

  /** A string of characters below U+0100, one per octet. */
  predicate IsBinary(s: string) { forall c :: c in s ==> c as int < 256 }

  /** `s.charCodeAt(i)` */
  function CharCode(s: string, i: nat): (b: Byte)
    requires IsBinary(s) && i < |s|
  {
    assert s[i] in s;
    s[i] as int
  }

  function BinaryOctets(s: string): (b: seq<Byte>)
    requires IsBinary(s)
    ensures |b| == |s|
  {
    seq(|s|, i requires 0 <= i < |s| => CharCode(s, i))
  }

  function OctetsBinary(b: seq<Byte>): (s: string)
    ensures |s| == |b| && IsBinary(s)
  {
    seq(|b|, i requires 0 <= i < |b| => b[i] as char)
  }

  lemma BinaryInverse(b: seq<Byte>)
    ensures BinaryOctets(OctetsBinary(b)) == b
  {
  }

  /** How many `=` bring a text up to a multiple of four. */
  function Missing(n: nat): (k: nat)
    ensures k < 4 && (n + k) % 4 == 0
  {
    if n % 4 == 0 then 0 else 4 - n % 4
  }

  /** `btoa`; it throws on a character above U+00FF. */
  function Btoa(binary: string): Option<string> {
    AlphabetsAreBase64();
    if !IsBinary(binary) then None
    else
      var text := Radix.Encode(Standard(), 6, BinaryOctets(binary));
      Some(text + Repeat('=', Missing(|text|)))
  }

  predicate IsAsciiSpace(c: char) { c in {'\t', '\n', '\r', ' ', 12 as char} }

  function DropAsciiSpace(s: string): (t: string)
    ensures (forall c :: c in s ==> !IsAsciiSpace(c)) ==> t == s
  {
    if s == "" then "" else
    assert s[0] in s && forall c :: c in s[1..] ==> c in s;
    (if IsAsciiSpace(s[0]) then "" else [s[0]]) + DropAsciiSpace(s[1..])
  }

  /** One or two `=` are taken off a text whose length is a multiple of four. */
  function DropPadding(s: string): string {
    if |s| % 4 != 0 || s == "" || s[|s| - 1] != '=' then s
    else if s[|s| - 2] != '=' then s[..|s| - 1] else s[..|s| - 2]
  }

  /** `atob`; it throws on a stray character or a length that leaves one symbol over. */
  function Atob(s: string): Option<string> {
    AlphabetsAreBase64();
    var text := DropPadding(DropAsciiSpace(s));
    if |text| % 4 == 1 || exists c :: c in text && c !in Standard() then None
    else Some(OctetsBinary(Radix.Decode(Standard(), 6, text)))
  }

  // ---------------------------------------------------------------- the codec

  /** Section 5 of RFC 4648 without padding. */
  function Rfc4648Url(bytes: seq<Byte>): (s: string)
    ensures forall c :: c in s ==> c in UrlSafe()
  {
    AlphabetsAreBase64();
    Radix.Encode(UrlSafe(), 6, bytes)
  }

  function ToUrl(s: string): string { ReplaceAll(ReplaceAll(s, '+', "-"), '/', "_") }

  function FromUrl(s: string): string { ReplaceAll(ReplaceAll(s, '-', "+"), '_', "/") }

  lemma {:induction false} ReplaceOne(s: string, c: char, d: char)
    ensures |ReplaceAll(s, c, [d])| == |s|
    ensures forall i :: 0 <= i < |s| ==> ReplaceAll(s, c, [d])[i] == if s[i] == c then d else s[i]
  {
    if s != "" {
      ReplaceOne(s[1..], c, d);
    }
  }

  lemma ToUrlAt(s: string)
    ensures |ToUrl(s)| == |s|
    ensures forall i :: 0 <= i < |s| ==>
              ToUrl(s)[i] == if s[i] == '+' then '-' else if s[i] == '/' then '_' else s[i]
  {
    ReplaceOne(s, '+', '-');
    ReplaceOne(ReplaceAll(s, '+', "-"), '/', '_');
  }

  lemma FromUrlAt(s: string)
    ensures |FromUrl(s)| == |s|
    ensures forall i :: 0 <= i < |s| ==>
              FromUrl(s)[i] == if s[i] == '-' then '+' else if s[i] == '_' then '/' else s[i]
  {
    ReplaceOne(s, '-', '+');
    ReplaceOne(ReplaceAll(s, '-', "+"), '_', '/');
  }

  lemma SwapSymbol(i: nat)
    requires i < 64
    ensures var s, u := Standard()[i], UrlSafe()[i];
            && u == (if s == '+' then '-' else if s == '/' then '_' else s)
            && s == (if u == '-' then '+' else if u == '_' then '/' else u)
            && u != '=' && s != '=' && u != '.' && !IsAsciiSpace(s)
  {
  }

  /** The standard text of the octets, before padding. */
  function StandardText(bytes: seq<Byte>): string {
    AlphabetsAreBase64();
    Radix.Encode(Standard(), 6, bytes)
  }

  lemma SameGroups(bytes: seq<Byte>, k: nat)
    requires k < |StandardText(bytes)|
    ensures |Rfc4648Url(bytes)| == |StandardText(bytes)|
    ensures exists i :: 0 <= i < 64 && StandardText(bytes)[k] == Standard()[i] && Rfc4648Url(bytes)[k] == UrlSafe()[i]
  {
    AlphabetsAreBase64();
    var gs := Groups(BitString(bytes), 6);
    assert gs[k] in gs;
    var i := ToNat(gs[k]);
    assert StandardText(bytes)[k] == Standard()[i] && Rfc4648Url(bytes)[k] == UrlSafe()[i];
  }

  lemma SameLength(bytes: seq<Byte>)
    ensures |Rfc4648Url(bytes)| == |StandardText(bytes)|
  {
    AlphabetsAreBase64();
  }

  lemma FromUrlOfText(bytes: seq<Byte>)
    ensures FromUrl(Rfc4648Url(bytes)) == StandardText(bytes)
  {
    SameLength(bytes);
    FromUrlAt(Rfc4648Url(bytes));
    forall k | 0 <= k < |StandardText(bytes)|
      ensures FromUrl(Rfc4648Url(bytes))[k] == StandardText(bytes)[k]
    {
      SameGroups(bytes, k);
      var i :| 0 <= i < 64 && StandardText(bytes)[k] == Standard()[i] && Rfc4648Url(bytes)[k] == UrlSafe()[i];
      SwapSymbol(i);
    }
  }

  lemma ToUrlOfPadded(bytes: seq<Byte>, pad: nat)
    ensures ToUrl(StandardText(bytes) + Repeat('=', pad)) == Rfc4648Url(bytes) + Repeat('=', pad)
  {
    var text := StandardText(bytes);
    SameLength(bytes);
    ToUrlAt(text + Repeat('=', pad));
    forall k | 0 <= k < |text| + pad
      ensures ToUrl(text + Repeat('=', pad))[k] == (Rfc4648Url(bytes) + Repeat('=', pad))[k]
    {
      if k < |text| {
        SameGroups(bytes, k);
        var i :| 0 <= i < 64 && text[k] == Standard()[i] && Rfc4648Url(bytes)[k] == UrlSafe()[i];
        SwapSymbol(i);
      }
    }
  }

  lemma StripsToUrl(bytes: seq<Byte>, pad: nat)
    ensures StripTrailing(ToUrl(StandardText(bytes) + Repeat('=', pad)), '=') == Rfc4648Url(bytes)
  {
    var u := Rfc4648Url(bytes);
    ToUrlOfPadded(bytes, pad);
    if u != "" {
      assert u[|u| - 1] in u;
      UrlSafeShape(u[|u| - 1]);
    }
    StripTrailingRepeat(u, '=', pad);
  }

  lemma OctetsBinarySnoc(bytes: seq<Byte>, n: nat)
    requires n < |bytes|
    ensures OctetsBinary(bytes[..n + 1]) == OctetsBinary(bytes[..n]) + [bytes[n] as char]
  {
  }

  method Base64UrlEncode(bytes: seq<Byte>) returns (out: string)
    ensures out == Rfc4648Url(bytes)
  {
    hide Rfc4648Url, StandardText, ToUrl, StripTrailing;
    var binary := "";
    for n := 0 to |bytes|
      invariant binary == OctetsBinary(bytes[..n])
    {
      OctetsBinarySnoc(bytes, n);
      binary := binary + [bytes[n] as char];
    }
    assert bytes[..|bytes|] == bytes;
    BinaryInverse(bytes);
    BtoaOfOctets(bytes);
    StripsToUrl(bytes, Missing(|StandardText(bytes)|));
    out := StripTrailing(ToUrl(Btoa(binary).value), '=');
  }

  lemma BtoaOfOctets(bytes: seq<Byte>)
    ensures Btoa(OctetsBinary(bytes))
         == Some(StandardText(bytes) + Repeat('=', Missing(|StandardText(bytes)|)))
  {
    BinaryInverse(bytes);
  }

  /** What decoding a text comes to, `None` where `atob` throws. */
  function Decoded(value: string): Option<seq<Byte>> {
    var normalized := FromUrl(value);
    match Atob(normalized + Repeat('=', Missing(|normalized|)))
    case None => None
    case Some(binary) => if IsBinary(binary) then Some(BinaryOctets(binary)) else None
  }

  lemma AtobIsBinary(s: string)
    ensures Atob(s).Some? ==> IsBinary(Atob(s).value)
  {
  }

  method Base64UrlDecode(value: string) returns (r: Option<seq<Byte>>)
    ensures r == Decoded(value)
  {
    hide Atob, FromUrl;
    var normalized := FromUrl(value);
    var padding := if |normalized| % 4 == 0 then "" else Repeat('=', 4 - |normalized| % 4);
    assert padding == Repeat('=', Missing(|normalized|));
    AtobIsBinary(normalized + padding);
    match Atob(normalized + padding) {
      case None => return None;
      case Some(binary) =>
        var bytes := new Byte[|binary|](_ => 0);
        for i := 0 to |binary|
          invariant forall j :: 0 <= j < i ==> bytes[j] == BinaryOctets(binary)[j]
        {
          bytes[i] := CharCode(binary, i);
        }
        assert bytes[..] == BinaryOctets(binary);
        return Some(bytes[..]);
    }
  }

  // ---------------------------------------------------------------- what they promise

  lemma TextLength(bytes: seq<Byte>)
    ensures |Rfc4648Url(bytes)| == (8 * |bytes| + 5) / 6 && |Rfc4648Url(bytes)| % 4 != 1
  {
    AlphabetsAreBase64();
    Radix.EncodeLength(UrlSafe(), 6, bytes);
    LengthMod4(|bytes|);
  }

  lemma LengthMod4(n: nat)
    ensures ((8 * n + 5) / 6) % 4 != 1
  {
    var q, r := n / 3, n % 3;
    assert 8 * n + 5 == 6 * (4 * q) + (8 * r + 5);
    assert (8 * n + 5) / 6 == 4 * q + (8 * r + 5) / 6;
  }

  /** The alphabet of the output: never a dot, never padding. */
  lemma OutputAlphabet(bytes: seq<Byte>)
    ensures forall c :: c in Rfc4648Url(bytes) ==> IsUrlSafe(c)
  {
    forall c | c in Rfc4648Url(bytes) ensures IsUrlSafe(c) { UrlSafeShape(c); }
  }

  /** Re-padding puts back exactly the `=` that encoding took off. */
  lemma PaddingRestored(bytes: seq<Byte>)
    ensures var normalized := FromUrl(Rfc4648Url(bytes));
            Btoa(OctetsBinary(bytes)) == Some(normalized + Repeat('=', Missing(|normalized|)))
  {
    FromUrlOfText(bytes);
    BtoaOfOctets(bytes);
  }

  lemma StandardSymbols(bytes: seq<Byte>, c: char)
    requires c in StandardText(bytes)
    ensures c in Standard() && c != '=' && !IsAsciiSpace(c)
  {
    var i :| 0 <= i < 64 && c == Standard()[i];
    SwapSymbol(i);
  }

  lemma DropPaddingUndoes(text: string, pad: nat)
    requires pad <= 2 && (|text| + pad) % 4 == 0 && '=' !in text
    ensures DropPadding(text + Repeat('=', pad)) == text
  {
    if pad == 0 {
      assert text + Repeat('=', 0) == text;
      if text != "" { assert text[|text| - 1] in text; }
    } else if pad == 1 {
      if |text| >= 1 { assert text[|text| - 1] in text; }
    }
  }

  lemma AtobOfPadded(bytes: seq<Byte>)
    ensures Atob(StandardText(bytes) + Repeat('=', Missing(|StandardText(bytes)|))) == Some(OctetsBinary(bytes))
  {
    var text := StandardText(bytes);
    var pad := Missing(|text|);
    TextLength(bytes);
    SameLength(bytes);
    forall c | c in text + Repeat('=', pad) ensures !IsAsciiSpace(c) {
      if c in text { StandardSymbols(bytes, c); }
    }
    if '=' in text { StandardSymbols(bytes, '='); }
    DropPaddingUndoes(text, pad);
    AlphabetsAreBase64();
    Radix.DecodeEncode(Standard(), 6, bytes);
  }

  /** Decoding undoes encoding for every octet string. */
  lemma RoundTrip(bytes: seq<Byte>)
    ensures Decoded(Rfc4648Url(bytes)) == Some(bytes)
  {
    FromUrlOfText(bytes);
    AtobOfPadded(bytes);
    BinaryInverse(bytes);
  }

  lemma EncodeNonEmpty(bytes: seq<Byte>)
    requires bytes != []
    ensures Rfc4648Url(bytes) != ""
  {
    TextLength(bytes);
  }
}
