/**
 * `escapeHtml`: text spliced into the project modal's markup is escaped by
 * five successive replace-all passes, ampersand first, so that none of
 * `<`, `>`, `"` and `'` survives and no entity is escaped twice.
 */
module HtmlEscape {

  /** The characters the escaper rewrites. */
  predicate IsSpecial(c: char) {
    c == '&' || c == '<' || c == '>' || c == '"' || c == '\''
  }

  /** The characters that would open a tag or close an attribute value. */
  predicate IsMarkup(c: char) {
    c == '<' || c == '>' || c == '"' || c == '\''
  }

  /** `s.replaceAll(pat, rep)` for a one-character pattern: every occurrence replaced. */
  function ReplaceAll(s: string, pat: char, rep: string): (r: string)
    ensures pat !in rep ==> pat !in r
    ensures forall c :: c !in s && c !in rep ==> c !in r
    decreases |s|
  {
    if |s| == 0 then ""
    else (if s[0] == pat then rep else [s[0]]) + ReplaceAll(s[1..], pat, rep)
  }

  /** The escaper as the page writes it: a chain of five replace-all passes. */
  function EscapeHtml(s: string): (r: string)
    ensures '<' !in r && '>' !in r && '"' !in r && '\'' !in r
  {
    ReplaceAll(
      ReplaceAll(
        ReplaceAll(
          ReplaceAll(
            ReplaceAll(s, '&', "&amp;"),
            '<', "&lt;"),
          '>', "&gt;"),
        '"', "&quot;"),
      '\'', "&#039;")
  }

  /** The entity a single character is escaped to, or the character itself. */
  function EscapeChar(c: char): (e: string)
    ensures |e| >= 1
    ensures forall i :: 0 <= i < |e| ==> !IsMarkup(e[i])
    ensures e == [c] <==> !IsSpecial(c)
  {
    match c
    case '&' => "&amp;"
    case '<' => "&lt;"
    case '>' => "&gt;"
    case '"' => "&quot;"
    case '\'' => "&#039;"
    case _ => [c]
  }

  /** Reference definition: each character escaped on its own and the pieces joined. */
  function EscapeEach(s: string): string
    decreases |s|
  {
    if |s| == 0 then "" else EscapeChar(s[0]) + EscapeEach(s[1..])
  }

  /** A replace-all pass works on a concatenation piece by piece. */
  lemma {:induction false} ReplaceAllConcat(a: string, b: string, pat: char, rep: string)
    ensures ReplaceAll(a + b, pat, rep) == ReplaceAll(a, pat, rep) + ReplaceAll(b, pat, rep)
    decreases |a|
  {
    if |a| > 0 {
      assert (a + b)[1..] == a[1..] + b;
      ReplaceAllConcat(a[1..], b, pat, rep);
    } else {
      assert a + b == b;
    }
  }

  /** A replace-all pass leaves a string without the pattern as it is. */
  lemma {:induction false} ReplaceAllAbsent(s: string, pat: char, rep: string)
    requires forall i :: 0 <= i < |s| ==> s[i] != pat
    ensures ReplaceAll(s, pat, rep) == s
    decreases |s|
  {
    if |s| > 0 {
      ReplaceAllAbsent(s[1..], pat, rep);
    }
  }

  /** The five-pass chain works on a concatenation piece by piece. */
  lemma EscapeHtmlConcat(a: string, b: string)
    ensures EscapeHtml(a + b) == EscapeHtml(a) + EscapeHtml(b)
  {
    var a1, b1 := ReplaceAll(a, '&', "&amp;"), ReplaceAll(b, '&', "&amp;");
    ReplaceAllConcat(a, b, '&', "&amp;");
    var a2, b2 := ReplaceAll(a1, '<', "&lt;"), ReplaceAll(b1, '<', "&lt;");
    ReplaceAllConcat(a1, b1, '<', "&lt;");
    var a3, b3 := ReplaceAll(a2, '>', "&gt;"), ReplaceAll(b2, '>', "&gt;");
    ReplaceAllConcat(a2, b2, '>', "&gt;");
    var a4, b4 := ReplaceAll(a3, '"', "&quot;"), ReplaceAll(b3, '"', "&quot;");
    ReplaceAllConcat(a3, b3, '"', "&quot;");
    ReplaceAllConcat(a4, b4, '\'', "&#039;");
  }

  /** A replace-all pass over a single character. */
  lemma ReplaceAllOne(c: char, pat: char, rep: string)
    ensures ReplaceAll([c], pat, rep) == if c == pat then rep else [c]
  {
  }

  /** The chain leaves an ordinary character alone. */
  lemma EscapeHtmlPlain(c: char)
    requires !IsSpecial(c)
    ensures EscapeHtml([c]) == [c]
  {
    ReplaceAllOne(c, '&', "&amp;");
    ReplaceAllOne(c, '<', "&lt;");
    ReplaceAllOne(c, '>', "&gt;");
    ReplaceAllOne(c, '"', "&quot;");
    ReplaceAllOne(c, '\'', "&#039;");
  }

  /** The passes after `&` leave alone text free of the characters they look for. */
  lemma LaterPassesKeep(e: string)
    requires forall i :: 0 <= i < |e| ==> !IsMarkup(e[i])
    ensures ReplaceAll(e, '<', "&lt;") == e
    ensures ReplaceAll(e, '>', "&gt;") == e
    ensures ReplaceAll(e, '"', "&quot;") == e
    ensures ReplaceAll(e, '\'', "&#039;") == e
  {
    ReplaceAllAbsent(e, '<', "&lt;");
    ReplaceAllAbsent(e, '>', "&gt;");
    ReplaceAllAbsent(e, '"', "&quot;");
    ReplaceAllAbsent(e, '\'', "&#039;");
  }

  /** On one character the chain produces that character's entity: nothing is escaped twice. */
  lemma EscapeHtmlChar(c: char)
    ensures EscapeHtml([c]) == EscapeChar(c)
  {
    if !IsSpecial(c) {
      EscapeHtmlPlain(c);
    } else {
      var e := EscapeChar(c);
      ReplaceAllOne(c, '&', "&amp;");
      if c == '&' {
        LaterPassesKeep(e);
      } else {
        ReplaceAllOne(c, '<', "&lt;");
        if c == '<' {
          LaterPassesKeep(e);
        } else {
          ReplaceAllOne(c, '>', "&gt;");
          if c == '>' {
            LaterPassesKeep(e);
          } else {
            ReplaceAllOne(c, '"', "&quot;");
            if c == '"' {
              LaterPassesKeep(e);
            } else {
              ReplaceAllOne(c, '\'', "&#039;");
            }
          }
        }
      }
    }
  }

  /** The sequential chain equals escaping every character independently. */
  lemma {:induction false} EscapeHtmlIsPerChar(s: string)
    ensures EscapeHtml(s) == EscapeEach(s)
    decreases |s|
  {
    if |s| == 0 {
      assert EscapeHtml(s) == "";
    } else {
      assert s == [s[0]] + s[1..];
      EscapeHtmlConcat([s[0]], s[1..]);
      EscapeHtmlChar(s[0]);
      EscapeHtmlIsPerChar(s[1..]);
    }
  }

  /** Escaping never shortens, and keeps the length exactly when nothing is special. */
  lemma {:induction false} EscapeEachLength(s: string)
    ensures |EscapeEach(s)| >= |s|
    ensures |EscapeEach(s)| == |s| <==> forall i :: 0 <= i < |s| ==> !IsSpecial(s[i])
    decreases |s|
  {
    if |s| > 0 {
      EscapeEachLength(s[1..]);
      assert forall i :: 1 <= i < |s| ==> s[i] == s[1..][i - 1];
      if !IsSpecial(s[0]) {
        assert forall i :: 0 <= i < |s[1..]| ==> s[1..][i] == s[i + 1];
      }
    }
  }

  /**
   * Text without any of the five special characters passes through
   * unchanged, and text with one of them does not.
   */
  lemma EscapeHtmlIdentity(s: string)
    ensures EscapeHtml(s) == s <==> forall i :: 0 <= i < |s| ==> !IsSpecial(s[i])
  {
    EscapeHtmlIsPerChar(s);
    EscapeEachLength(s);
    if forall i :: 0 <= i < |s| ==> !IsSpecial(s[i]) {
      EscapeEachKeepsPlain(s);
    }
  }

  /** Escaping each character of plain text gives the text back. */
  lemma {:induction false} EscapeEachKeepsPlain(s: string)
    requires forall i :: 0 <= i < |s| ==> !IsSpecial(s[i])
    ensures EscapeEach(s) == s
    decreases |s|
  {
    if |s| > 0 {
      EscapeEachKeepsPlain(s[1..]);
      assert s == [s[0]] + s[1..];
    }
  }

  /** `p` is a prefix of `s`. */
  predicate StartsWith(s: string, p: string) {
    |p| <= |s| && forall i :: 0 <= i < |p| ==> s[i] == p[i]
  }

  /**
   * How a browser reads the five entities back when it parses the escaped
   * text: each entity becomes its character, everything else is kept.
   */
  function Unescape(s: string): string
    decreases |s|
  {
    if |s| == 0 then ""
    else if StartsWith(s, "&amp;") then "&" + Unescape(s[5..])
    else if StartsWith(s, "&lt;") then "<" + Unescape(s[4..])
    else if StartsWith(s, "&gt;") then ">" + Unescape(s[4..])
    else if StartsWith(s, "&quot;") then "\"" + Unescape(s[6..])
    else if StartsWith(s, "&#039;") then "'" + Unescape(s[6..])
    else [s[0]] + Unescape(s[1..])
  }

  /** Reading back one escaped character followed by more escaped text. */
  lemma UnescapeStep(c: char, rest: string)
    ensures Unescape(EscapeChar(c) + rest) == [c] + Unescape(rest)
  {
    var e := EscapeChar(c);
    var t := e + rest;
    assert forall i :: 0 <= i < |e| ==> t[i] == e[i];
    assert t[|e|..] == rest;
    if c == '&' {
      assert StartsWith(t, "&amp;");
    } else if c == '<' {
      assert t[1] == 'l';
      assert StartsWith(t, "&lt;");
    } else if c == '>' {
      assert t[1] == 'g';
      assert StartsWith(t, "&gt;");
    } else if c == '"' {
      assert t[1] == 'q';
      assert StartsWith(t, "&quot;");
    } else if c == '\'' {
      assert t[1] == '#';
      assert StartsWith(t, "&#039;");
    } else {
      assert t[0] == c && t[1..] == rest;
    }
  }

  /** The browser reads escaped text back as the original text: nothing is lost. */
  lemma UnescapeEscape(s: string)
    ensures Unescape(EscapeHtml(s)) == s
  {
    EscapeHtmlIsPerChar(s);
    UnescapeEscapeEach(s);
  }

  /** Reading back per-character escaped text gives the original text. */
  lemma {:induction false} UnescapeEscapeEach(s: string)
    ensures Unescape(EscapeEach(s)) == s
    decreases |s|
  {
    if |s| > 0 {
      UnescapeStep(s[0], EscapeEach(s[1..]));
      UnescapeEscapeEach(s[1..]);
      assert s == [s[0]] + s[1..];
    }
  }
}
