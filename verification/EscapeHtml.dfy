/** `escapeHtml` of apps/auth/src/lib/email/transactional-html.ts: four passes over the text, each
    replacing one character by an entity that later passes read again. */
module EscapeHtml {
  import opened JsText

  function EscapeHtml(s: string): string {
    ReplaceAll(ReplaceAll(ReplaceAll(ReplaceAll(s, '&', "&amp;"), '<', "&lt;"), '>', "&gt;"), '"', "&quot;")
  }

  /** What one character comes to. */
  function Entity(c: char): string {
    if c == '&' then "&amp;"
    else if c == '<' then "&lt;"
    else if c == '>' then "&gt;"
    else if c == '"' then "&quot;"
    else [c]
  }

  lemma {:induction false} NotIn(s: string, c: char, text: string)
    requires c !in s
    ensures ReplaceAll(s, c, text) == s
  {
    if s != "" {
      assert s[0] in s;
      NotIn(s[1..], c, text);
    }
  }

  lemma Single(c: char, d: char, text: string)
    ensures ReplaceAll([c], d, text) == if c == d then text else [c]
  {
    assert [c][1..] == "" && text + "" == text;
  }

  lemma OneChar(c: char)
    ensures EscapeHtml([c]) == Entity(c)
  {
    hide ReplaceAll;
    Single(c, '&', "&amp;");
    Single(c, '<', "&lt;");
    Single(c, '>', "&gt;");
    Single(c, '"', "&quot;");
    NotIn("&amp;", '<', "&lt;");
    NotIn("&amp;", '>', "&gt;");
    NotIn("&amp;", '"', "&quot;");
    NotIn("&lt;", '>', "&gt;");
    NotIn("&lt;", '"', "&quot;");
    NotIn("&gt;", '"', "&quot;");
  }

  lemma EscapeConcat(a: string, b: string)
    ensures EscapeHtml(a + b) == EscapeHtml(a) + EscapeHtml(b)
  {
    var a1, b1 := ReplaceAll(a, '&', "&amp;"), ReplaceAll(b, '&', "&amp;");
    var a2, b2 := ReplaceAll(a1, '<', "&lt;"), ReplaceAll(b1, '<', "&lt;");
    var a3, b3 := ReplaceAll(a2, '>', "&gt;"), ReplaceAll(b2, '>', "&gt;");
    ReplaceAllConcat(a, b, '&', "&amp;");
    ReplaceAllConcat(a1, b1, '<', "&lt;");
    ReplaceAllConcat(a2, b2, '>', "&gt;");
    ReplaceAllConcat(a3, b3, '"', "&quot;");
  }

  /** The four passes are one pass: no pass touches what an earlier one wrote. */
  lemma {:induction false} OnePass(s: string)
    ensures EscapeHtml(s) == MapChars(s, Entity)
  {
    hide EscapeHtml, Entity;
    if s == "" {
      assert EscapeHtml("") == "" by { Empty(); }
    } else {
      assert s == [s[0]] + s[1..];
      EscapeConcat([s[0]], s[1..]);
      OneChar(s[0]);
      OnePass(s[1..]);
    }
  }

  lemma Empty()
    ensures EscapeHtml("") == ""
  {
  }

  // ---------------------------------------------------------------- reading the text back

  predicate StartsWith(s: string, p: string) { p <= s }

  /** The character the entity at the front stands for, and the entity's length. */
  function Leading(s: string): (char, nat)
    requires s != ""
  {
    if StartsWith(s, "&amp;") then ('&', 5)
    else if StartsWith(s, "&lt;") then ('<', 4)
    else if StartsWith(s, "&gt;") then ('>', 4)
    else if StartsWith(s, "&quot;") then ('"', 6)
    else (s[0], 1)
  }

  /** A reader that decodes the four entities from left to right. */
  function Unescape(s: string): string
  {
    if s == "" then "" else
    var (c, n) := Leading(s);
    assert 0 < n <= |s|;
    [c] + Unescape(s[n..])
  }

  lemma LeadingEntity(c: char, rest: string)
    ensures Leading(Entity(c) + rest) == (c, |Entity(c)|)
    ensures (Entity(c) + rest)[|Entity(c)|..] == rest
  {
    var t := Entity(c) + rest;
    Differ(t, "&amp;");
    Differ(t, "&lt;");
    Differ(t, "&gt;");
    Differ(t, "&quot;");
    assert t[..|Entity(c)|] == Entity(c);
    assert t[0] == Entity(c)[0];
    if c in {'&', '<', '>', '"'} {
      assert StartsWith(t, Entity(c)) && t[1] == Entity(c)[1];
    }
  }

  lemma Differ(t: string, p: string)
    requires |p| >= 2
    ensures StartsWith(t, p) ==> |t| >= 2 && t[0] == p[0] && t[1] == p[1]
  {
  }

  /** Nothing is lost. */
  lemma {:induction false} UnescapeEscape(s: string)
    ensures Unescape(EscapeHtml(s)) == s
  {
    OnePass(s);
    if s != "" {
      OnePass(s[1..]);
      UnescapeEscape(s[1..]);
      var rest := MapChars(s[1..], Entity);
      LeadingEntity(s[0], rest);
      assert MapChars(s, Entity) == Entity(s[0]) + rest;
    }
  }

  /** Every `&` starts one of the four entities, and no other character that HTML would act on
      in text or in a double-quoted attribute is left. */
  ghost predicate Inert(t: string) {
    forall i :: 0 <= i < |t| ==>
      && t[i] != '<' && t[i] != '>' && t[i] != '"'
      && (t[i] == '&' ==> Leading(t[i..]).1 > 1)
  }

  lemma InertEntity(c: char, rest: string, i: nat)
    requires i < |Entity(c)|
    ensures var t := Entity(c) + rest;
            && t[i] != '<' && t[i] != '>' && t[i] != '"'
            && (t[i] == '&' ==> i == 0 && Leading(t).1 > 1)
  {
    LeadingEntity(c, rest);
  }

  lemma {:induction false} OutputInert(s: string)
    ensures Inert(EscapeHtml(s))
  {
    OnePass(s);
    if s != "" {
      OnePass(s[1..]);
      OutputInert(s[1..]);
      InertPrepend(s[0], MapChars(s[1..], Entity));
      assert MapChars(s, Entity) == Entity(s[0]) + MapChars(s[1..], Entity);
    }
  }

  lemma InertPrepend(c: char, rest: string)
    requires Inert(rest)
    ensures Inert(Entity(c) + rest)
  {
    var n := |Entity(c)|;
    var t := Entity(c) + rest;
    forall i | 0 <= i < |t|
      ensures t[i] != '<' && t[i] != '>' && t[i] != '"'
      ensures t[i] == '&' ==> Leading(t[i..]).1 > 1
    {
      if i < n {
        InertEntity(c, rest, i);
        assert t[0..] == t;
      } else {
        assert t[i..] == rest[i - n..];
      }
    }
  }
}
