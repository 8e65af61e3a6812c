/** The signed cookie of apps/auth/src/lib/auth/oauth-pending-cookie.ts:
    base64url(JSON) "." base64url(HMAC), with an expiry inside the JSON. */
module PendingCookie {
  import opened BitStrings
  import opened Words
  import opened JsText
  import Base64Url

  const TTL_SECONDS := 300

  function ParamKeys(): seq<string> {
    ["response_type", "client_id", "redirect_uri", "scope", "state", "code_challenge",
     "code_challenge_method", "nonce", "resource", "prompt"]
  }

  type Params = map<string, string>

  datatype Envelope = Envelope(params: Params, exp: int)

  /** A property of a parsed object: a string or anything else. */
  datatype Field = Text(text: string) | NotText

  /** What `JSON.parse` can give: it throws, or the value is no object, or it is an object with a
      numeric `exp` or none, and with whatever properties `params` has. */
  datatype Parsed = SyntaxError | NotObject | Object(exp: Option<int>, params: map<string, Field>)

  /** HMAC-SHA-256 of a text under one secret. */
  type Tag = t: seq<Byte> | |t| == 32 witness seq(32, _ => 0)
  type Mac = string -> Tag

  /** JSON and UTF-8 in either direction. */
  datatype Codec = Codec(write: Envelope -> seq<Byte>, read: seq<Byte> -> Parsed)

  function Fields(params: Params): map<string, Field> {
    map k | k in params :: Text(params[k])
  }

  /** What is used of JSON and UTF-8: they undo each other on what the encoder writes. */
  ghost predicate Faithful(codec: Codec) {
    forall e: Envelope :: codec.write(e) != [] && codec.read(codec.write(e)) == Object(Some(e.exp), Fields(e.params))
  }

  // ---------------------------------------------------------------- sanitising

  predicate Kept(raw: map<string, Field>, k: string) {
    k in raw && raw[k].Text? && Trim(raw[k].text) != ""
  }

  function KeptFrom(keys: seq<string>, raw: map<string, Field>): Params {
    map k | k in keys && Kept(raw, k) :: Trim(raw[k].text)
  }

  /** The known parameters that are non-blank strings, trimmed. */
  function Sanitized(raw: map<string, Field>): Params {
    KeptFrom(ParamKeys(), raw)
  }

  lemma KeptFromIdempotent(keys: seq<string>, raw: map<string, Field>)
    ensures KeptFrom(keys, Fields(KeptFrom(keys, raw))) == KeptFrom(keys, raw)
  {
    hide Trim;
    var once := KeptFrom(keys, raw);
    forall k | k in once ensures Trim(once[k]) == once[k] && once[k] != "" {
      TrimIdempotent(raw[k].text);
    }
  }

  lemma SanitizedIdempotent(raw: map<string, Field>)
    ensures Sanitized(Fields(Sanitized(raw))) == Sanitized(raw)
  {
    hide ParamKeys, KeptFrom;
    KeptFromIdempotent(ParamKeys(), raw);
  }

  lemma KeptFromNothing(raw: map<string, Field>)
    ensures KeptFrom([], raw) == map[]
  {
  }

  lemma KeptFromStep(keys: seq<string>, n: nat, raw: map<string, Field>)
    requires n < |keys|
    ensures KeptFrom(keys[..n + 1], raw)
         == if Kept(raw, keys[n]) then KeptFrom(keys[..n], raw)[keys[n] := Trim(raw[keys[n]].text)]
            else KeptFrom(keys[..n], raw)
  {
    hide Trim;
    assert keys[..n + 1] == keys[..n] + [keys[n]];
  }

  predicate IsParam(k: string) {
    || k == "response_type" || k == "client_id" || k == "redirect_uri" || k == "scope" || k == "state"
    || k == "code_challenge" || k == "code_challenge_method" || k == "nonce" || k == "resource" || k == "prompt"
  }

  /** Exactly which parameters survive, and as what: the ten known ones that are non-blank texts,
      trimmed. */
  lemma SanitizedIff(raw: map<string, Field>, k: string)
    ensures k in Sanitized(raw) <==> IsParam(k) && k in raw && raw[k].Text? && Trim(raw[k].text) != ""
    ensures k in Sanitized(raw) ==> Sanitized(raw)[k] == Trim(raw[k].text)
  {
    hide Trim;
  }

  method SanitizeParams(raw: map<string, Field>) returns (out: Params)
    ensures out == Sanitized(raw)
    ensures forall k :: k in out <==> IsParam(k) && k in raw && raw[k].Text? && Trim(raw[k].text) != ""
    ensures forall k :: k in out ==> out[k] == Trim(raw[k].text)
  {
    forall k
      ensures k in Sanitized(raw) <==> IsParam(k) && k in raw && raw[k].Text? && Trim(raw[k].text) != ""
      ensures k in Sanitized(raw) ==> Sanitized(raw)[k] == Trim(raw[k].text)
    {
      SanitizedIff(raw, k);
    }
    hide IsParam, Sanitized;
    hide ParamKeys, KeptFrom, Trim;
    out := map[];
    var keys := ParamKeys();
    KeptFromNothing(raw);
    assert keys[..0] == [];
    for n := 0 to |keys|
      invariant out == KeptFrom(keys[..n], raw)
    {
      var key := keys[n];
      KeptFromStep(keys, n, raw);
      if key !in raw || raw[key].NotText? { continue; }
      var value := Trim(raw[key].text);
      if |value| == 0 { continue; }
      out := out[key := value];
    }
    assert keys[..|keys|] == keys;
  }

  // ---------------------------------------------------------------- signing

  function Signature(mac: Mac, data: string): string {
    Base64Url.Rfc4648Url(mac(data))
  }

  method Sign(mac: Mac, data: string) returns (s: string)
    ensures s == Signature(mac, data)
  {
    s := Base64Url.Base64UrlEncode(mac(data));
  }

  /** `s.charCodeAt(i)` as the operand of a bitwise operator. */
  function CodeWord(c: char): Word { OfNat(c as int) }

  ghost predicate Clear(w: Word) { w == Zeros(32) }

  lemma XorClear(a: char, b: char)
    ensures Clear(Xor(CodeWord(a), CodeWord(b))) <==> a == b
  {
    if Clear(Xor(CodeWord(a), CodeWord(b))) {
      forall i | 0 <= i < 32 ensures CodeWord(a)[i] == CodeWord(b)[i] {
        assert Xor(CodeWord(a), CodeWord(b))[i] == Zeros(32)[i];
      }
      assert CodeWord(a) == CodeWord(b);
      UnsignedOfNat(a as int);
      UnsignedOfNat(b as int);
    }
  }

  lemma OrClear(a: Word, b: Word)
    ensures Clear(Or(a, b)) <==> Clear(a) && Clear(b)
  {
    if Clear(Or(a, b)) {
      forall i | 0 <= i < 32 ensures !a[i] && !b[i] { assert Or(a, b)[i] == Zeros(32)[i]; }
    }
  }

  lemma ClearIsZero(w: Word)
    ensures w == OfNat(0) <==> Clear(w)
  {
    FromNatZero(32);
  }

  /** The accumulating comparison decides equality. */
  method Verify(mac: Mac, data: string, signature: string) returns (ok: bool)
    ensures ok <==> signature == Signature(mac, data)
  {
    hide Signature, OfNat, Or, Xor;
    var expected := Sign(mac, data);
    if |expected| != |signature| { return false; }
    var mismatch: Word := OfNat(0);
    ClearIsZero(mismatch);
    for i := 0 to |expected|
      invariant Clear(mismatch) <==> expected[..i] == signature[..i]
    {
      XorClear(expected[i], signature[i]);
      OrClear(mismatch, Xor(CodeWord(expected[i]), CodeWord(signature[i])));
      mismatch := Or(mismatch, Xor(CodeWord(expected[i]), CodeWord(signature[i])));
      PrefixStep(expected, signature, i);
    }
    assert expected[..|expected|] == expected && signature[..|signature|] == signature;
    ClearIsZero(mismatch);
    ok := mismatch == OfNat(0);
  }

  lemma PrefixStep(a: string, b: string, i: nat)
    requires |a| == |b| && i < |a|
    ensures a[..i + 1] == b[..i + 1] <==> a[..i] == b[..i] && a[i] == b[i]
  {
    assert a[..i + 1] == a[..i] + [a[i]];
    assert b[..i + 1] == b[..i] + [b[i]];
    if a[..i + 1] == b[..i + 1] {
      assert a[..i] == a[..i + 1][..i] && b[..i] == b[..i + 1][..i];
      assert a[i] == a[..i + 1][i] && b[i] == b[..i + 1][i];
    }
  }

  // ---------------------------------------------------------------- framing

  /** What stands before the first dot, all of it if there is none. */
  function Head(s: string): (h: string)
    ensures |h| <= |s| && s[..|h|] == h && '.' !in h
    ensures |h| < |s| ==> s[|h|] == '.'
  {
    if s == "" || s[0] == '.' then "" else [s[0]] + Head(s[1..])
  }

  function AfterDot(s: string): string {
    var n := |Head(s)|;
    if n < |s| then s[n + 1..] else ""
  }

  /** The first two parts of `s.split(".")`, the second empty if there is no dot. */
  function PayloadPart(s: string): string { Head(s) }
  function SignaturePart(s: string): string { Head(AfterDot(s)) }

  lemma {:induction false} HeadOfFramed(a: string, rest: string)
    requires '.' !in a
    ensures Head(a + rest) == a + (if rest == "" || rest[0] == '.' then "" else Head(rest))
  {
    if a == "" {
      assert a + rest == rest;
    } else {
      assert a[0] in a;
      assert (a + rest)[1..] == a[1..] + rest;
      HeadOfFramed(a[1..], rest);
    }
  }

  lemma FirstPart(a: string, rest: string)
    requires '.' !in a
    ensures Head(a) == a
    ensures Head(a + "." + rest) == a && AfterDot(a + "." + rest) == rest
  {
    assert a + "" == a;
    HeadOfFramed(a, "");
    assert a + "." + rest == a + ("." + rest);
    HeadOfFramed(a, "." + rest);
  }

  lemma FramedParts(payload: string, signature: string)
    requires '.' !in payload && '.' !in signature
    ensures PayloadPart(payload + "." + signature) == payload
    ensures SignaturePart(payload + "." + signature) == signature
  {
    hide Head, AfterDot;
    FirstPart(payload, signature);
    FirstPart(signature, "");
  }

  // ---------------------------------------------------------------- the cookie

  function Seconds(ms: int): int { ms / 1000 }

  function Payload(codec: Codec, params: map<string, Field>, nowMs: int): string {
    Base64Url.Rfc4648Url(codec.write(Envelope(Sanitized(params), Seconds(nowMs) + TTL_SECONDS)))
  }

  function Cookie(codec: Codec, mac: Mac, params: map<string, Field>, nowMs: int): string {
    var payload := Payload(codec, params, nowMs);
    payload + "." + Signature(mac, payload)
  }

  /** `secret` is `None` when no secret is configured; signing then throws. */
  method EncodePendingAuthorizationCookie(codec: Codec, secret: Option<Mac>, params: map<string, Field>, nowMs: int)
    returns (r: Option<string>)
    ensures r == match secret case None => None case Some(mac) => Some(Cookie(codec, mac, params, nowMs))
  {
    hide Sanitized, Signature, Base64Url.Rfc4648Url;
    var now := Seconds(nowMs);
    var clean := SanitizeParams(params);
    var payload := Base64Url.Base64UrlEncode(codec.write(Envelope(clean, now + TTL_SECONDS)));
    match secret {
      case None => return None;
      case Some(mac) =>
        var signature := Sign(mac, payload);
        return Some(payload + "." + signature);
    }
  }

  /** What a payload says, if it is an unexpired envelope. */
  function Opened(codec: Codec, payload: string, nowMs: int): Option<Params> {
    match Base64Url.Decoded(payload)
    case None => None
    case Some(bytes) =>
      match codec.read(bytes)
      case Object(Some(exp), params) => if exp <= Seconds(nowMs) then None else Some(Sanitized(params))
      case _ => None
  }

  /** What a presented cookie value is read as. */
  function Presented(codec: Codec, secret: Option<Mac>, cookie: Option<string>, nowMs: int): Option<Params> {
    if cookie.None? || secret.None? then None
    else
      var payload, signature := PayloadPart(cookie.value), SignaturePart(cookie.value);
      if payload == "" || signature == "" || signature != Signature(secret.value, payload) then None
      else Opened(codec, payload, nowMs)
  }

  lemma NoCookieReadsNothing(codec: Codec, secret: Option<Mac>, nowMs: int)
    ensures Presented(codec, secret, None, nowMs) == None
  {
  }

  /** Without a key no cookie is accepted. */
  lemma NoKeyReadsNothing(codec: Codec, cookie: Option<string>, nowMs: int)
    ensures Presented(codec, None, cookie, nowMs) == None
  {
  }

  lemma EmptyHasNoParts()
    ensures PayloadPart("") == ""
  {
  }

  method DecodePendingAuthorizationCookie(codec: Codec, secret: Option<Mac>, cookie: Option<string>, nowMs: int)
    returns (r: Option<Params>)
    ensures r == Presented(codec, secret, cookie, nowMs)
    ensures cookie.None? || secret.None? ==> r.None?
  {
    hide Sanitized, Signature, Base64Url.Decoded, PayloadPart, SignaturePart;
    EmptyHasNoParts();
    if cookie == None || cookie == Some("") { return None; }
    var payload, signature := PayloadPart(cookie.value), SignaturePart(cookie.value);
    if payload == "" || signature == "" { return None; }
    if secret.None? { return None; }
    var valid := Verify(secret.value, payload, signature);
    if !valid { return None; }
    var bytes := Base64Url.Base64UrlDecode(payload);
    if bytes.None? { return None; }
    var envelope := codec.read(bytes.value);
    if !envelope.Object? { return None; }
    if envelope.exp.None? || envelope.exp.value <= Seconds(nowMs) { return None; }
    var params := SanitizeParams(envelope.params);
    r := Some(params);
  }

  // ---------------------------------------------------------------- what the cookie promises

  lemma PayloadShape(codec: Codec, mac: Mac, params: map<string, Field>, atMs: int)
    requires Faithful(codec)
    ensures var payload := Payload(codec, params, atMs);
            && payload != "" && '.' !in payload
            && Signature(mac, payload) != "" && '.' !in Signature(mac, payload)
  {
    hide Sanitized, Base64Url.Rfc4648Url;
    var bytes := codec.write(Envelope(Sanitized(params), Seconds(atMs) + TTL_SECONDS));
    var payload := Payload(codec, params, atMs);
    Base64Url.EncodeNonEmpty(bytes);
    Base64Url.OutputAlphabet(bytes);
    Base64Url.EncodeNonEmpty(mac(payload));
    Base64Url.OutputAlphabet(mac(payload));
  }

  lemma OpenedPayload(codec: Codec, params: map<string, Field>, atMs: int, nowMs: int)
    requires Faithful(codec)
    ensures Opened(codec, Payload(codec, params, atMs), nowMs)
         == if Seconds(nowMs) < Seconds(atMs) + 300 then Some(Sanitized(params)) else None
  {
    hide ParamKeys;
    var e := Envelope(Sanitized(params), Seconds(atMs) + TTL_SECONDS);
    Base64Url.RoundTrip(codec.write(e));
    assert codec.read(codec.write(e)) == Object(Some(e.exp), Fields(e.params));
    SanitizedIdempotent(params);
  }

  /** A cookie reads back as its sanitised parameters at every second before the 300th, and as
      nothing from then on. */
  lemma RoundTrip(codec: Codec, mac: Mac, params: map<string, Field>, atMs: int, nowMs: int)
    requires Faithful(codec)
    ensures Presented(codec, Some(mac), Some(Cookie(codec, mac, params, atMs)), nowMs)
         == if Seconds(nowMs) < Seconds(atMs) + 300 then Some(Sanitized(params)) else None
  {
    hide ParamKeys;
    PayloadShape(codec, mac, params, atMs);
    var payload := Payload(codec, params, atMs);
    FramedParts(payload, Signature(mac, payload));
    OpenedPayload(codec, params, atMs, nowMs);
  }

  /** In milliseconds: always good for 299 s, never for 300 s. */
  lemma Lifetime(codec: Codec, mac: Mac, params: map<string, Field>, atMs: int, nowMs: int)
    requires Faithful(codec)
    ensures nowMs - atMs <= 299_000 ==>
              Presented(codec, Some(mac), Some(Cookie(codec, mac, params, atMs)), nowMs) == Some(Sanitized(params))
    ensures nowMs - atMs >= 300_000 ==>
              Presented(codec, Some(mac), Some(Cookie(codec, mac, params, atMs)), nowMs) == None
  {
    hide ParamKeys;
    RoundTrip(codec, mac, params, atMs, nowMs);
  }

  // ---------------------------------------------------------------- authority

  datatype Issue = Issue(params: map<string, Field>, atMs: int)

  /** What an unforgeable MAC gives: the signature of a payload can only be presented for a payload
      that was signed. */
  ghost predicate Unforged(codec: Codec, mac: Mac, cookie: string, issued: seq<Issue>) {
    SignaturePart(cookie) == Signature(mac, PayloadPart(cookie)) ==>
      exists i :: 0 <= i < |issued| && PayloadPart(cookie) == Payload(codec, issued[i].params, issued[i].atMs)
  }

  /** Any accepted cookie value, framed however it likes, carries the parameters of a cookie issued
      less than 300 s before. */
  lemma AcceptedWasIssued(codec: Codec, mac: Mac, cookie: string, issued: seq<Issue>, nowMs: int)
    requires Faithful(codec) && Unforged(codec, mac, cookie, issued)
    requires Presented(codec, Some(mac), Some(cookie), nowMs).Some?
    ensures exists i :: 0 <= i < |issued| && nowMs - issued[i].atMs < 300_000
                        && Presented(codec, Some(mac), Some(cookie), nowMs) == Some(Sanitized(issued[i].params))
  {
    hide ParamKeys;
    var i :| 0 <= i < |issued| && PayloadPart(cookie) == Payload(codec, issued[i].params, issued[i].atMs);
    OpenedPayload(codec, issued[i].params, issued[i].atMs, nowMs);
  }

  lemma FramedPartsThen(payload: string, signature: string, junk: string)
    requires '.' !in payload && '.' !in signature
    ensures PayloadPart(payload + "." + signature + "." + junk) == payload
    ensures SignaturePart(payload + "." + signature + "." + junk) == signature
  {
    hide Head, AfterDot;
    FirstPart(payload, signature + "." + junk);
    assert payload + "." + signature + "." + junk == payload + "." + (signature + "." + junk);
    FirstPart(signature, junk);
  }

  /** Only the first two parts count: text after a second dot does not invalidate a cookie. */
  lemma TrailingPartsIgnored(codec: Codec, mac: Mac, params: map<string, Field>, atMs: int, nowMs: int, junk: string)
    requires Faithful(codec)
    ensures var c := Cookie(codec, mac, params, atMs);
            Presented(codec, Some(mac), Some(c + "." + junk), nowMs) == Presented(codec, Some(mac), Some(c), nowMs)
  {
    hide Sanitized, Opened, Head, AfterDot, PayloadPart, SignaturePart, Signature, Payload;
    PayloadShape(codec, mac, params, atMs);
    var payload := Payload(codec, params, atMs);
    FramedParts(payload, Signature(mac, payload));
    FramedPartsThen(payload, Signature(mac, payload), junk);
  }

  lemma PartsOf(s: string)
    ensures s == Head(s) || s == Head(s) + "." + AfterDot(s)
    ensures AfterDot(s) != "" ==> s == Head(s) + "." + AfterDot(s)
  {
    var h := Head(s);
    assert s == s[..|h|] + s[|h|..];
    if |h| < |s| { assert s[|h|..] == "." + s[|h| + 1..]; }
  }

  /** A text with two non-empty parts is payload, dot and signature, alone or with more behind a
      second dot. */
  lemma TwoParts(s: string)
    requires SignaturePart(s) != ""
    ensures s == PayloadPart(s) + "." + SignaturePart(s)
         || exists junk :: s == PayloadPart(s) + "." + SignaturePart(s) + "." + junk
  {
    hide Head, AfterDot;
    HeadOfEmpty();
    PartsOf(s);
    PartsOf(AfterDot(s));
    var rest := AfterDot(s);
    if rest != Head(rest) {
      assert s == PayloadPart(s) + "." + SignaturePart(s) + "." + AfterDot(rest);
    }
  }

  lemma HeadOfEmpty()
    ensures Head("") == ""
  {
  }

  /** `cookie` is the i-th cookie issued, alone or with text behind a second dot. */
  ghost predicate IsIssued(codec: Codec, mac: Mac, cookie: string, issue: Issue) {
    var c := Cookie(codec, mac, issue.params, issue.atMs);
    cookie == c || exists junk :: cookie == c + "." + junk
  }

  /** Exactly which values are accepted: an issued cookie in its 300 seconds, alone or followed by a
      dot and anything. */
  lemma AcceptedIffIssued(codec: Codec, mac: Mac, cookie: string, issued: seq<Issue>, nowMs: int)
    requires Faithful(codec) && Unforged(codec, mac, cookie, issued)
    ensures Presented(codec, Some(mac), Some(cookie), nowMs).Some? <==>
      exists i :: 0 <= i < |issued| && Seconds(nowMs) < Seconds(issued[i].atMs) + 300
                  && IsIssued(codec, mac, cookie, issued[i])
    ensures forall i :: 0 <= i < |issued| && Seconds(nowMs) < Seconds(issued[i].atMs) + 300
                        && IsIssued(codec, mac, cookie, issued[i]) ==>
              Presented(codec, Some(mac), Some(cookie), nowMs) == Some(Sanitized(issued[i].params))
  {
    hide ParamKeys, Sanitized, Payload, Head, AfterDot, Signature, Opened, PayloadPart, SignaturePart;
    if Presented(codec, Some(mac), Some(cookie), nowMs).Some? {
      var i :| 0 <= i < |issued| && PayloadPart(cookie) == Payload(codec, issued[i].params, issued[i].atMs);
      OpenedPayload(codec, issued[i].params, issued[i].atMs, nowMs);
      TwoParts(cookie);
      assert IsIssued(codec, mac, cookie, issued[i]);
    }
    forall i | 0 <= i < |issued| && Seconds(nowMs) < Seconds(issued[i].atMs) + 300
               && IsIssued(codec, mac, cookie, issued[i])
      ensures Presented(codec, Some(mac), Some(cookie), nowMs) == Some(Sanitized(issued[i].params))
    {
      IssuedAccepted(codec, mac, cookie, issued[i], nowMs);
    }
  }

  lemma IssuedAccepted(codec: Codec, mac: Mac, cookie: string, issue: Issue, nowMs: int)
    requires Faithful(codec) && IsIssued(codec, mac, cookie, issue)
    ensures Seconds(nowMs) < Seconds(issue.atMs) + 300 ==>
      Presented(codec, Some(mac), Some(cookie), nowMs) == Some(Sanitized(issue.params))
  {
    hide Sanitized, Presented, Cookie;
    RoundTrip(codec, mac, issue.params, issue.atMs, nowMs);
    var c := Cookie(codec, mac, issue.params, issue.atMs);
    if cookie != c {
      var junk :| cookie == c + "." + junk;
      TrailingPartsIgnored(codec, mac, issue.params, issue.atMs, nowMs, junk);
    }
  }
}
