/** The string operations of JavaScript the modelled code relies on. */
module JsText {
  datatype Option<+T> = None | Some(value: T) {
    function GetOr(default: T): T {
      match this case Some(v) => v case None => default
    }
  }

  /** What `\s` matches and `trim` removes. */
  predicate IsSpace(c: char) {
    || '\t' <= c <= '\r'
    || c == ' '
    || c as int in {0xA0, 0x1680, 0x2028, 0x2029, 0x202F, 0x205F, 0x3000, 0xFEFF}
    || 0x2000 <= c as int <= 0x200A
  }

  predicate IsDigit(c: char) { '0' <= c <= '9' }

  function TrimStart(s: string): (t: string)
    ensures t != "" ==> !IsSpace(t[0])
  {
    if s != "" && IsSpace(s[0]) then TrimStart(s[1..]) else s
  }

  function TrimEnd(s: string): (t: string)
    ensures t != "" ==> !IsSpace(t[|t| - 1]) && s != "" && t[0] == s[0]
  {
    if s != "" && IsSpace(s[|s| - 1]) then TrimEnd(s[..|s| - 1]) else s
  }

  /** `s.trim()` */
  function Trim(s: string): (t: string)
    ensures t != "" ==> !IsSpace(t[0]) && !IsSpace(t[|t| - 1])
  {
    TrimEnd(TrimStart(s))
  }

  lemma TrimIdempotent(s: string)
    ensures Trim(Trim(s)) == Trim(s)
  {
  }

  /** A string with no space at either end is left alone. */
  lemma TrimOfTrimmed(s: string)
    requires s != "" ==> !IsSpace(s[0]) && !IsSpace(s[|s| - 1])
    ensures Trim(s) == s
  {
  }

  /** `s.replace(/\s/g, "")` */
  function StripSpaces(s: string): (t: string)
    ensures forall c :: c in t <==> c in s && !IsSpace(c)
  {
    if s == "" then "" else
    assert s == [s[0]] + s[1..];
    (if IsSpace(s[0]) then "" else [s[0]]) + StripSpaces(s[1..])
  }

  /** `s.replace(/c+$/, "")` */
  function StripTrailing(s: string, c: char): (t: string)
    ensures |t| <= |s| && s[..|t|] == t
    ensures t != "" ==> t[|t| - 1] != c
    ensures forall i :: |t| <= i < |s| ==> s[i] == c
  {
    if s != "" && s[|s| - 1] == c then StripTrailing(s[..|s| - 1], c) else s
  }

  /** `c.repeat(n)` */
  function Repeat(c: char, n: nat): (s: string)
    ensures |s| == n && forall i :: 0 <= i < n ==> s[i] == c
  {
    seq(n, _ => c)
  }

  lemma {:induction false} StripTrailingRepeat(s: string, c: char, n: nat)
    requires s != "" ==> s[|s| - 1] != c
    ensures StripTrailing(s + Repeat(c, n), c) == s
  {
    if n == 0 {
      assert s + Repeat(c, 0) == s;
    } else {
      assert (s + Repeat(c, n))[..|s| + n - 1] == s + Repeat(c, n - 1);
      StripTrailingRepeat(s, c, n - 1);
    }
  }

  lemma {:induction false} StripSpacesConcat(a: string, b: string)
    ensures StripSpaces(a + b) == StripSpaces(a) + StripSpaces(b)
  {
    if a == "" {
      assert a + b == b;
    } else {
      assert (a + b)[1..] == a[1..] + b;
      StripSpacesConcat(a[1..], b);
    }
  }

  /** `s.replace(/c/g, by)`: every occurrence, left to right, the replacement not rescanned. */
  function ReplaceAll(s: string, c: char, text: string): string {
    if s == "" then "" else (if s[0] == c then text else [s[0]]) + ReplaceAll(s[1..], c, text)
  }

  lemma {:induction false} ReplaceAllConcat(a: string, b: string, c: char, text: string)
    ensures ReplaceAll(a + b, c, text) == ReplaceAll(a, c, text) + ReplaceAll(b, c, text)
  {
    if a == "" {
      assert a + b == b;
    } else {
      assert (a + b)[1..] == a[1..] + b;
      ReplaceAllConcat(a[1..], b, c, text);
    }
  }

  /** Case mapping works a character at a time; one character may become several. */
  function MapChars(s: string, f: char -> string): string {
    if s == "" then "" else f(s[0]) + MapChars(s[1..], f)
  }

  lemma {:induction false} MapCharsConcat(a: string, b: string, f: char -> string)
    ensures MapChars(a + b, f) == MapChars(a, f) + MapChars(b, f)
  {
    if a == "" {
      assert a + b == b;
    } else {
      assert (a + b)[1..] == a[1..] + b;
      MapCharsConcat(a[1..], b, f);
    }
  }

  /** What is used of `toUpperCase`: the ASCII letters, and that other ASCII characters and
      white space stay. Outside that it is left open, as in "ß" becoming "SS". */
  ghost predicate UpperCasing(upper: char -> string) {
    && (forall c: char :: 'a' <= c <= 'z' ==> upper(c) == [c - 32 as char])
    && (forall c: char :: c < 128 as char && !('a' <= c <= 'z') ==> upper(c) == [c])
    && (forall c: char :: IsSpace(c) ==> upper(c) == [c])
  }
}
