/**
 * `escapeHtml`: the five chained `replaceAll` calls the terminal applies to
 * a non-markdown file before printing it. The chain is shown equal to a
 * one-pass, per-character encoding; from that, the output is shown to hold
 * no markup character, every `&` in it to begin one of the five entities,
 * and a decoder to recover the input.
 */
module Escape {

  /** `s.replaceAll(c, rep)` for a one-character pattern. */
  function ReplaceAll(s: string, c: char, rep: string): (r: string)
    decreases |s|
  {
    if s == [] then []
    else (if s[0] == c then rep else [s[0]]) + ReplaceAll(s[1..], c, rep)
  }

  /** `escapeHtml(text)`: `&` first, then `<`, `>`, `"` and `'`. */
  function EscapeHtml(text: string): (r: string) {
    var amp := ReplaceAll(text, '&', "&amp;");
    var lt := ReplaceAll(amp, '<', "&lt;");
    var gt := ReplaceAll(lt, '>', "&gt;");
    var quot := ReplaceAll(gt, '"', "&quot;");
    ReplaceAll(quot, '\'', "&#39;")
  }

  /** The entity each character becomes, or the character itself. */
  function EscapeChar(c: char): (e: string) {
    match c
    case '&' => "&amp;"
    case '<' => "&lt;"
    case '>' => "&gt;"
    case '"' => "&quot;"
    case '\'' => "&#39;"
    case _ => [c]
  }

  /** The reference encoding: every character encoded on its own. */
  function EscapeEach(s: string): (r: string)
    decreases |s|
  {
    if s == [] then [] else EscapeChar(s[0]) + EscapeEach(s[1..])
  }

  /** The decoder: each of the five entities back to its character. */
  function UnescapeHtml(t: string): (r: string)
    decreases |t|
  {
    if t == [] then []
    else if "&amp;" <= t then "&" + UnescapeHtml(t[5..])
    else if "&lt;" <= t then "<" + UnescapeHtml(t[4..])
    else if "&gt;" <= t then ">" + UnescapeHtml(t[4..])
    else if "&quot;" <= t then "\"" + UnescapeHtml(t[6..])
    else if "&#39;" <= t then "'" + UnescapeHtml(t[5..])
    else [t[0]] + UnescapeHtml(t[1..])
  }

  /** A character that HTML treats as markup inside text or attributes. */
  predicate IsMarkupChar(c: char) {
    c == '<' || c == '>' || c == '"' || c == '\''
  }

  /** `t[i..]` begins with one of the five entities. */
  predicate EntityAt(t: string, i: nat)
    requires i <= |t|
  {
    var rest := t[i..];
    "&amp;" <= rest || "&lt;" <= rest || "&gt;" <= rest || "&quot;" <= rest || "&#39;" <= rest
  }

  /** No character of `r` is a markup character. */
  predicate NoMarkup(r: string) {
    forall i :: 0 <= i < |r| ==> !IsMarkupChar(r[i])
  }

  /** Every `&` of `r` begins an entity. */
  predicate AmpersandsBeginEntities(r: string) {
    forall i :: 0 <= i < |r| && r[i] == '&' ==> EntityAt(r, i)
  }

  // ---------------------------------------------------------------------

  lemma {:induction false} ReplaceAllAbsent(s: string, c: char, rep: string)
    requires c !in s
    ensures ReplaceAll(s, c, rep) == s
    decreases |s|
  {
    if s != [] {
      ReplaceAllAbsent(s[1..], c, rep);
      assert s == [s[0]] + s[1..];
    }
  }

  lemma ReplaceAllSingle(x: char, c: char, rep: string)
    ensures ReplaceAll([x], c, rep) == if x == c then rep else [x]
  {
    assert [x][1..] == [];
  }

  lemma {:induction false} ReplaceAllConcat(a: string, b: string, c: char, rep: string)
    ensures ReplaceAll(a + b, c, rep) == ReplaceAll(a, c, rep) + ReplaceAll(b, c, rep)
    decreases |a|
  {
    if a != [] {
      assert (a + b)[1..] == a[1..] + b;
      ReplaceAllConcat(a[1..], b, c, rep);
    } else {
      assert a + b == b;
    }
  }

  lemma EscapeHtmlConcat(a: string, b: string)
    ensures EscapeHtml(a + b) == EscapeHtml(a) + EscapeHtml(b)
  {
    var a1, b1 := ReplaceAll(a, '&', "&amp;"), ReplaceAll(b, '&', "&amp;");
    ReplaceAllConcat(a, b, '&', "&amp;");
    var a2, b2 := ReplaceAll(a1, '<', "&lt;"), ReplaceAll(b1, '<', "&lt;");
    ReplaceAllConcat(a1, b1, '<', "&lt;");
    var a3, b3 := ReplaceAll(a2, '>', "&gt;"), ReplaceAll(b2, '>', "&gt;");
    ReplaceAllConcat(a2, b2, '>', "&gt;");
    var a4, b4 := ReplaceAll(a3, '"', "&quot;"), ReplaceAll(b3, '"', "&quot;");
    ReplaceAllConcat(a3, b3, '"', "&quot;");
    ReplaceAllConcat(a4, b4, '\'', "&#39;");
  }

  /** A character that none of the five replacements matches survives the
      whole chain. */
  lemma EscapeHtmlOfPlainChar(c: char)
    requires c !in "&<>\"'"
    ensures EscapeHtml([c]) == [c]
  {
    ReplaceAllSingle(c, '&', "&amp;");
    ReplaceAllSingle(c, '<', "&lt;");
    ReplaceAllSingle(c, '>', "&gt;");
    ReplaceAllSingle(c, '"', "&quot;");
    ReplaceAllSingle(c, '\'', "&#39;");
  }

  /** A character that one of the replacements matches becomes its entity
      there, and the later replacements leave that entity alone because it
      holds none of their characters. The entity is a parameter so that the
      replacements are unfolded on a variable, not on a constant. */
  lemma EscapeHtmlOfAmp(c: char, e: string)
    requires c == '&' && e == "&amp;"
    ensures EscapeHtml([c]) == e
  {
    ReplaceAllSingle(c, '&', e);
    ReplaceAllAbsent(e, '<', "&lt;");
    ReplaceAllAbsent(e, '>', "&gt;");
    ReplaceAllAbsent(e, '"', "&quot;");
    ReplaceAllAbsent(e, '\'', "&#39;");
  }

  lemma EscapeHtmlOfLt(c: char, e: string)
    requires c == '<' && e == "&lt;"
    ensures EscapeHtml([c]) == e
  {
    ReplaceAllSingle(c, '&', "&amp;");
    ReplaceAllSingle(c, '<', e);
    ReplaceAllAbsent(e, '>', "&gt;");
    ReplaceAllAbsent(e, '"', "&quot;");
    ReplaceAllAbsent(e, '\'', "&#39;");
  }

  lemma EscapeHtmlOfGt(c: char, e: string)
    requires c == '>' && e == "&gt;"
    ensures EscapeHtml([c]) == e
  {
    ReplaceAllSingle(c, '&', "&amp;");
    ReplaceAllSingle(c, '<', "&lt;");
    ReplaceAllSingle(c, '>', e);
    ReplaceAllAbsent(e, '"', "&quot;");
    ReplaceAllAbsent(e, '\'', "&#39;");
  }

  lemma EscapeHtmlOfQuot(c: char, e: string)
    requires c == '"' && e == "&quot;"
    ensures EscapeHtml([c]) == e
  {
    ReplaceAllSingle(c, '&', "&amp;");
    ReplaceAllSingle(c, '<', "&lt;");
    ReplaceAllSingle(c, '>', "&gt;");
    ReplaceAllSingle(c, '"', e);
    ReplaceAllAbsent(e, '\'', "&#39;");
  }

  lemma EscapeHtmlOfApos(c: char, e: string)
    requires c == '\'' && e == "&#39;"
    ensures EscapeHtml([c]) == e
  {
    ReplaceAllSingle(c, '&', "&amp;");
    ReplaceAllSingle(c, '<', "&lt;");
    ReplaceAllSingle(c, '>', "&gt;");
    ReplaceAllSingle(c, '"', "&quot;");
    ReplaceAllSingle(c, '\'', e);
  }

  /** On one character the chain of replacements produces that character's
      entity: no later replacement touches what an earlier one inserted. */
  lemma EscapeHtmlOneChar(c: char)
    ensures EscapeHtml([c]) == EscapeChar(c)
  {
    if c == '&' { EscapeHtmlOfAmp(c, "&amp;"); }
    else if c == '<' { EscapeHtmlOfLt(c, "&lt;"); }
    else if c == '>' { EscapeHtmlOfGt(c, "&gt;"); }
    else if c == '"' { EscapeHtmlOfQuot(c, "&quot;"); }
    else if c == '\'' { EscapeHtmlOfApos(c, "&#39;"); }
    else { EscapeHtmlOfPlainChar(c); }
  }

  /** Each character's encoding has no markup character and only an `&` at
      its start, which begins an entity. */
  lemma EscapeCharSafe(c: char)
    ensures NoMarkup(EscapeChar(c))
    ensures forall k :: 0 < k < |EscapeChar(c)| ==> EscapeChar(c)[k] != '&'
    ensures EscapeChar(c)[0] == '&' ==> EntityAt(EscapeChar(c), 0)
  {
  }

  /** The chained replacements are the per-character encoding. */
  lemma {:induction false} EscapeHtmlIsPerCharacter(s: string)
    ensures EscapeHtml(s) == EscapeEach(s)
    decreases |s|
  {
    if s == [] {
    } else {
      assert s == [s[0]] + s[1..];
      EscapeHtmlConcat([s[0]], s[1..]);
      EscapeHtmlOneChar(s[0]);
      EscapeHtmlIsPerCharacter(s[1..]);
    }
  }

  lemma {:induction false} EscapeEachSafe(s: string)
    ensures NoMarkup(EscapeEach(s)) && AmpersandsBeginEntities(EscapeEach(s))
    decreases |s|
  {
    if s != [] {
      EscapeEachSafe(s[1..]);
      EscapeCharSafe(s[0]);
      var e, rest := EscapeChar(s[0]), EscapeEach(s[1..]);
      var r := e + rest;
      assert r == EscapeEach(s);
      forall i | 0 <= i < |r| && r[i] == '&' ensures EntityAt(r, i) {
        if i < |e| {
          assert i == 0 && r[0] == e[0];
          assert e[0..] <= r[0..];
        } else {
          assert r[i..] == rest[i - |e|..];
          assert rest[i - |e|] == '&';
          assert EntityAt(rest, i - |e|);
        }
      }
      forall i | 0 <= i < |r| ensures !IsMarkupChar(r[i]) {
        if i >= |e| {
          assert r[i] == rest[i - |e|];
        } else {
          assert r[i] == e[i];
        }
      }
    }
  }

  /** The escaped text contains no raw `<`, `>`, `"` or `'`, and every `&`
      in it begins one of the five entities. */
  lemma EscapeHtmlSafe(s: string)
    ensures NoMarkup(EscapeHtml(s)) && AmpersandsBeginEntities(EscapeHtml(s))
  {
    EscapeHtmlIsPerCharacter(s);
    EscapeEachSafe(s);
  }

  /** Each entity, followed by anything, decodes to its character followed
      by the decoding of the rest; so does a character that is not `&`. */
  lemma UnescapeAmp(e: string, rest: string)
    requires e == "&amp;"
    ensures UnescapeHtml(e + rest) == "&" + UnescapeHtml(rest)
  {
    var t := e + rest;
    assert e <= t && t[5..] == rest;
  }

  lemma UnescapeLt(e: string, rest: string)
    requires e == "&lt;"
    ensures UnescapeHtml(e + rest) == "<" + UnescapeHtml(rest)
  {
    var t := e + rest;
    assert t[1] == 'l';
    assert e <= t && t[4..] == rest;
  }

  lemma UnescapeGt(e: string, rest: string)
    requires e == "&gt;"
    ensures UnescapeHtml(e + rest) == ">" + UnescapeHtml(rest)
  {
    var t := e + rest;
    assert t[1] == 'g';
    assert e <= t && t[4..] == rest;
  }

  lemma UnescapeQuot(e: string, rest: string)
    requires e == "&quot;"
    ensures UnescapeHtml(e + rest) == "\"" + UnescapeHtml(rest)
  {
    var t := e + rest;
    assert t[1] == 'q';
    assert e <= t && t[6..] == rest;
  }

  lemma UnescapeApos(e: string, rest: string)
    requires e == "&#39;"
    ensures UnescapeHtml(e + rest) == "'" + UnescapeHtml(rest)
  {
    var t := e + rest;
    assert t[1] == '#';
    assert e <= t && t[5..] == rest;
  }

  lemma UnescapePlain(c: char, rest: string)
    requires c != '&'
    ensures UnescapeHtml([c] + rest) == [c] + UnescapeHtml(rest)
  {
    var t := [c] + rest;
    assert t[0] == c && t[1..] == rest;
  }

  lemma UnescapeEscapeChar(c: char, rest: string)
    ensures UnescapeHtml(EscapeChar(c) + rest) == [c] + UnescapeHtml(rest)
  {
    if c == '&' { UnescapeAmp(EscapeChar(c), rest); }
    else if c == '<' { UnescapeLt(EscapeChar(c), rest); }
    else if c == '>' { UnescapeGt(EscapeChar(c), rest); }
    else if c == '"' { UnescapeQuot(EscapeChar(c), rest); }
    else if c == '\'' { UnescapeApos(EscapeChar(c), rest); }
    else { UnescapePlain(c, rest); }
  }

  lemma {:induction false} UnescapeEscapeEach(s: string)
    ensures UnescapeHtml(EscapeEach(s)) == s
    decreases |s|
  {
    if s != [] {
      UnescapeEscapeEach(s[1..]);
      UnescapeEscapeChar(s[0], EscapeEach(s[1..]));
      assert s == [s[0]] + s[1..];
    }
  }

  /** Decoding the escaped text gives back the original: escaping loses
      nothing, and an `&` already in the input is escaped again rather than
      taken as the start of an entity. */
  lemma EscapeHtmlRoundTrip(s: string)
    ensures UnescapeHtml(EscapeHtml(s)) == s
  {
    EscapeHtmlIsPerCharacter(s);
    UnescapeEscapeEach(s);
  }

  /** Text without `&` and markup characters is printed unchanged. */
  lemma {:induction false} EscapeHtmlPlain(s: string)
    requires '&' !in s && NoMarkup(s)
    ensures EscapeHtml(s) == s
    decreases |s|
  {
    EscapeHtmlIsPerCharacter(s);
    if s != [] {
      EscapeHtmlPlain(s[1..]);
      EscapeHtmlIsPerCharacter(s[1..]);
    }
  }

}
