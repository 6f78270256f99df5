/** The five-character HTML escaper of the improved converter
    (convert-to-html-improved.js, `escapeHtml`, written out twice in the
    source with the same body). */
module HtmlEscape {
  import opened JsString

  /** `s.replace(/c/g, rep)`: every occurrence of the character `c` is
      replaced by `rep`, scanning left to right; the inserted text is not
      scanned again. */
  function ReplaceAllChar(s: string, c: char, rep: string): (r: string)
    ensures c !in s ==> r == s
    ensures c !in rep ==> c !in r
  {
    if s == [] then []
    else (if s[0] == c then rep else [s[0]]) + ReplaceAllChar(s[1..], c, rep)
  }

  lemma {:induction false} ReplaceAllCharConcat(a: string, b: string, c: char, rep: string)
    ensures ReplaceAllChar(a + b, c, rep) == ReplaceAllChar(a, c, rep) + ReplaceAllChar(b, c, rep)
  {
    if a == [] {
      assert a + b == b;
    } else {
      var head := if a[0] == c then rep else [a[0]];
      assert (a + b)[0] == a[0];
      assert (a + b)[1..] == a[1..] + b;
      calc {
        ReplaceAllChar(a + b, c, rep);
        head + ReplaceAllChar(a[1..] + b, c, rep);
        { ReplaceAllCharConcat(a[1..], b, c, rep); }
        head + (ReplaceAllChar(a[1..], c, rep) + ReplaceAllChar(b, c, rep));
        (head + ReplaceAllChar(a[1..], c, rep)) + ReplaceAllChar(b, c, rep);
      }
    }
  }

  /** `escapeHtml(unsafe)`: `&` first, then `<`, `>`, `"` and `'`, each a
      global replacement over the result of the previous one. */
  function EscapeHtml(unsafe: string): (r: string)
  {
    var amp := ReplaceAllChar(unsafe, '&', "&amp;");
    var lt := ReplaceAllChar(amp, '<', "&lt;");
    var gt := ReplaceAllChar(lt, '>', "&gt;");
    var quot := ReplaceAllChar(gt, '"', "&quot;");
    ReplaceAllChar(quot, '\'', "&#039;")
  }

  /** The reference escaper: each character on its own, in one pass. */
  function EscapeChar(c: char): string {
    match c
    case '&' => "&amp;"
    case '<' => "&lt;"
    case '>' => "&gt;"
    case '"' => "&quot;"
    case '\'' => "&#039;"
    case _ => [c]
  }

  function EscapeEach(s: string): string {
    if s == [] then [] else EscapeChar(s[0]) + EscapeEach(s[1..])
  }

  predicate IsSpecial(c: char) {
    c == '&' || c == '<' || c == '>' || c == '"' || c == '\''
  }

  /** None of the four characters that could open a tag or close an
      attribute value. */
  predicate NoMarkupChars(s: string) {
    '<' !in s && '>' !in s && '"' !in s && '\'' !in s
  }

  lemma EscapeHtmlConcat(a: string, b: string)
    ensures EscapeHtml(a + b) == EscapeHtml(a) + EscapeHtml(b)
  {
    ReplaceAllCharConcat(a, b, '&', "&amp;");
    var a1, b1 := ReplaceAllChar(a, '&', "&amp;"), ReplaceAllChar(b, '&', "&amp;");
    ReplaceAllCharConcat(a1, b1, '<', "&lt;");
    var a2, b2 := ReplaceAllChar(a1, '<', "&lt;"), ReplaceAllChar(b1, '<', "&lt;");
    ReplaceAllCharConcat(a2, b2, '>', "&gt;");
    var a3, b3 := ReplaceAllChar(a2, '>', "&gt;"), ReplaceAllChar(b2, '>', "&gt;");
    ReplaceAllCharConcat(a3, b3, '"', "&quot;");
    var a4, b4 := ReplaceAllChar(a3, '"', "&quot;"), ReplaceAllChar(b3, '"', "&quot;");
    ReplaceAllCharConcat(a4, b4, '\'', "&#039;");
  }

  lemma ReplaceAllCharSingle(x: char, c: char, rep: string)
    ensures ReplaceAllChar([x], c, rep) == if x == c then rep else [x]
  {
    assert [x][1..] == [];
  }

  lemma EscapeHtmlChar(c: char)
    ensures EscapeHtml([c]) == EscapeChar(c)
  {
    ReplaceAllCharSingle(c, '&', "&amp;");
    var amp := ReplaceAllChar([c], '&', "&amp;");
    if c == '&' {
      assert amp == "&amp;";
      assert NoMarkupChars(amp);
    } else {
      ReplaceAllCharSingle(c, '<', "&lt;");
      var lt := ReplaceAllChar(amp, '<', "&lt;");
      if c == '<' {
        assert lt == "&lt;";
        assert '>' !in lt && '"' !in lt && '\'' !in lt;
      } else {
        ReplaceAllCharSingle(c, '>', "&gt;");
        var gt := ReplaceAllChar(lt, '>', "&gt;");
        if c == '>' {
          assert gt == "&gt;";
          assert '"' !in gt && '\'' !in gt;
        } else {
          ReplaceAllCharSingle(c, '"', "&quot;");
          var quot := ReplaceAllChar(gt, '"', "&quot;");
          ReplaceAllCharSingle(c, '\'', "&#039;");
          if c == '"' {
            assert quot == "&quot;";
            assert '\'' !in quot;
          }
        }
      }
    }
  }

  /** The five chained replacements escape every character exactly once:
      the entities inserted by an earlier replacement hold none of the
      characters the later ones look for. */
  lemma {:induction false} EscapeHtmlIsCharwise(s: string)
    ensures EscapeHtml(s) == EscapeEach(s)
  {
    if s != [] {
      assert s == [s[0]] + s[1..];
      EscapeHtmlConcat([s[0]], s[1..]);
      EscapeHtmlChar(s[0]);
      EscapeHtmlIsCharwise(s[1..]);
    }
  }

  lemma {:induction false} EscapeEachHasNoMarkup(s: string)
    ensures NoMarkupChars(EscapeEach(s))
  {
    if s != [] {
      EscapeEachHasNoMarkup(s[1..]);
    }
  }

  /** Escaped text contains none of `<`, `>`, `"` and `'`. */
  lemma EscapedHasNoMarkup(s: string)
    ensures NoMarkupChars(EscapeHtml(s))
  {
    EscapeHtmlIsCharwise(s);
    EscapeEachHasNoMarkup(s);
  }

  /** Text holding none of the five special characters comes back unchanged. */
  lemma {:induction false} EscapeHtmlPlainText(s: string)
    requires IsPlain(s)
    ensures EscapeHtml(s) == s
  {
    EscapeHtmlIsCharwise(s);
    EscapeEachPlain(s);
  }

  lemma {:induction false} EscapeEachPlain(s: string)
    requires IsPlain(s)
    ensures EscapeEach(s) == s
  {
    if s != [] {
      EscapeEachPlain(s[1..]);
    }
  }

  /** The inverse of escaping: the five entities back to their characters. */
  function Unescape(s: string): string
    decreases |s|
  {
    if s == [] then []
    else if StartsWith(s, "&amp;") then "&" + Unescape(s[5..])
    else if StartsWith(s, "&lt;") then "<" + Unescape(s[4..])
    else if StartsWith(s, "&gt;") then ">" + Unescape(s[4..])
    else if StartsWith(s, "&quot;") then "\"" + Unescape(s[6..])
    else if StartsWith(s, "&#039;") then "'" + Unescape(s[6..])
    else [s[0]] + Unescape(s[1..])
  }

  /** Unescaping undoes the escape of one character in front of any text. */
  lemma UnescapeEscapeChar(c: char, t: string)
    ensures Unescape(EscapeChar(c) + t) == [c] + Unescape(t)
  {
    var e := EscapeChar(c) + t;
    var n := |EscapeChar(c)|;
    assert e[..n] == EscapeChar(c) && e[n..] == t;
    assert e[0] == EscapeChar(c)[0];
    if c == '&' {
      assert StartsWith(e, "&amp;");
    } else if c == '<' {
      assert !StartsWith(e, "&amp;") by { assert e[1] == 'l'; }
      assert StartsWith(e, "&lt;");
    } else if c == '>' {
      assert !StartsWith(e, "&amp;") && !StartsWith(e, "&lt;") by { assert e[1] == 'g'; }
      assert StartsWith(e, "&gt;");
    } else if c == '"' {
      assert !StartsWith(e, "&amp;") && !StartsWith(e, "&lt;") && !StartsWith(e, "&gt;") by {
        assert e[1] == 'q';
      }
      assert StartsWith(e, "&quot;");
    } else if c == '\'' {
      assert !StartsWith(e, "&amp;") && !StartsWith(e, "&lt;") && !StartsWith(e, "&gt;")
        && !StartsWith(e, "&quot;") by {
        assert e[1] == '#';
      }
      assert StartsWith(e, "&#039;");
    } else {
      assert e[0] == c && e[1..] == t;
      assert !StartsWith(e, "&amp;") && !StartsWith(e, "&lt;") && !StartsWith(e, "&gt;")
        && !StartsWith(e, "&quot;") && !StartsWith(e, "&#039;");
    }
  }

  lemma {:induction false} UnescapeEscapeEach(s: string)
    ensures Unescape(EscapeEach(s)) == s
  {
    if s != [] {
      UnescapeEscapeChar(s[0], EscapeEach(s[1..]));
      UnescapeEscapeEach(s[1..]);
      assert s == [s[0]] + s[1..];
    }
  }

  /** Escaping loses nothing: unescaping gives the text back, so two
      different texts never escape to the same output. */
  lemma EscapeHtmlRoundTrip(s: string)
    ensures Unescape(EscapeHtml(s)) == s
  {
    EscapeHtmlIsCharwise(s);
    UnescapeEscapeEach(s);
  }

  lemma EscapeHtmlInjective(a: string, b: string)
    requires EscapeHtml(a) == EscapeHtml(b)
    ensures a == b
  {
    EscapeHtmlRoundTrip(a);
    EscapeHtmlRoundTrip(b);
  }

  /** Text none of whose characters is one of the five special ones. */
  predicate IsPlain(s: string) {
    forall i :: 0 <= i < |s| ==> !IsSpecial(s[i])
  }

  lemma {:induction false} EscapeEachLength(s: string)
    ensures |EscapeEach(s)| >= |s|
    ensures |EscapeEach(s)| == |s| <==> IsPlain(s)
    ensures !IsPlain(s) ==> '&' in EscapeEach(s)
  {
    if s != [] {
      EscapeEachLength(s[1..]);
      assert IsPlain(s) <==> !IsSpecial(s[0]) && IsPlain(s[1..]) by {
        if !IsSpecial(s[0]) && IsPlain(s[1..]) {
          forall i | 0 <= i < |s| ensures !IsSpecial(s[i]) {
            if i > 0 { assert s[i] == s[1..][i - 1]; }
          }
        }
        if IsPlain(s) {
          forall i | 0 <= i < |s[1..]| ensures !IsSpecial(s[1..][i]) {
            assert s[1..][i] == s[i + 1];
          }
        }
      }
      if IsSpecial(s[0]) {
        assert EscapeEach(s)[0] == '&';
      } else if '&' in EscapeEach(s[1..]) {
        var k :| 0 <= k < |EscapeEach(s[1..])| && EscapeEach(s[1..])[k] == '&';
        assert EscapeEach(s)[k + 1] == '&';
      }
    }
  }

  /** Escaping is idempotent exactly on plain text: once the input holds a
      special character, the output holds an `&`, and escaping it again
      turns that `&` into `&amp;` (so `&lt;` becomes `&amp;lt;`). */
  lemma EscapeHtmlIdempotentIff(s: string)
    ensures EscapeHtml(EscapeHtml(s)) == EscapeHtml(s) <==> IsPlain(s)
  {
    var e := EscapeHtml(s);
    EscapeHtmlIsCharwise(s);
    EscapeHtmlIsCharwise(e);
    EscapeEachLength(s);
    EscapeEachLength(e);
    if IsPlain(s) {
      EscapeHtmlPlainText(s);
      EscapeHtmlPlainText(e);
    } else {
      var k :| 0 <= k < |e| && e[k] == '&';
      assert IsSpecial(e[k]);
      assert !IsPlain(e);
    }
  }
}
