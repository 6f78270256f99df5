/** The original Markdown-to-HTML converter (convert-to-html.js): its
    heading, code-block and table renderers and its page template, and how
    each differs from the improved converter's. */
module OriginalConverter {
  import opened JsString
  import opened HtmlEscape
  import opened HeadingSlug
  import opened HtmlTag
  import opened SiteMarkup
  import Improved = ImprovedConverter

  // ---------------------------------------------------------------------
  // Headings

  /** `renderer.heading(text, level)`: the id is slugged from the raw text. */
  function Heading(text: string, level: nat): string {
    var n := DecimalString(level);
    "<h" + n + " id=\"" + OriginalHeadingId(text) + "\">" + text + "</h" + n + ">"
  }

  /** Read back, a heading is an `h<level>` start tag whose only attribute
      is a slug id, followed by the heading text verbatim and the matching
      end tag. */
  lemma HeadingParsesBack(text: string, level: nat)
    ensures Parse(Heading(text, level))
         == Some((StartTag("h" + DecimalString(level), [Attribute("id", OriginalHeadingId(text))]),
                  text + "</h" + DecimalString(level) + ">"))
    ensures IsSlug(OriginalHeadingId(text))
  {
    var n := DecimalString(level);
    var t := StartTag("h" + n, [Attribute("id", OriginalHeadingId(text))]);
    Improved.HeadingSplit(n, OriginalHeadingId(text), text);
    OriginalHeadingIdIsSlug(text);
    SlugIsAttributeSafe(OriginalHeadingId(text));
    Improved.HeadingNameIsName(level);
    Improved.IdIsName();
    ParseRender(t, text + "</h" + n + ">");
  }

  /** Headings without markup come out the same from both converters. */
  lemma HeadingsAgreeWithoutTags(text: string, level: nat)
    requires '<' !in text
    ensures Heading(text, level) == Improved.Heading(text, level)
  {
    HeadingIdsAgreeWithoutTags(text);
  }

  // ---------------------------------------------------------------------
  // Code blocks

  /** `infostring || 'javascript'`: the whole info string, or `javascript`
      when it is absent or empty. */
  function CodeLanguage(info: Option<string>): string {
    if Improved.InfoText(info) == "" then "javascript" else Improved.InfoText(info)
  }

  /** `renderer.code(code, infostring)`: the code goes in as it is. */
  function Code(code: string, info: Option<string>): string {
    "<pre>" + "<code class=\"language-" + CodeLanguage(info) + "\">" + code + "</code></pre>"
  }

  /** Read back, a code block is a bare `pre` start tag and a `code` start
      tag naming the language, followed by the code itself, unescaped. */
  lemma CodeParsesBack(code: string, info: Option<string>)
    requires '"' !in CodeLanguage(info)
    ensures Parse(Code(code, info))
         == Some((StartTag("pre", []), Render(StartTag("code", [Attribute("class", "language-" + CodeLanguage(info))]))
                                         + (code + "</code></pre>")))
    ensures Parse(Render(StartTag("code", [Attribute("class", "language-" + CodeLanguage(info))])) + (code + "</code></pre>"))
         == Some((StartTag("code", [Attribute("class", "language-" + CodeLanguage(info))]), code + "</code></pre>"))
  {
    Improved.CodeParse(CodeLanguage(info), code);
  }

  /** For an info string that is a single word (or absent or empty) the two
      converters name the same language. */
  lemma LanguagesAgreeOnOneWord(info: Option<string>)
    requires forall i :: 0 <= i < |Improved.InfoText(info)| ==> !Improved.IsJsWhitespace(Improved.InfoText(info)[i])
    ensures CodeLanguage(info) == Improved.CodeLanguage(info)
  {
    var s := Improved.InfoText(info);
    var r := Improved.LeadingToken(s);
    assert |r| == |s|;
    assert s[..|r|] == s;
  }

  /** An info string with more after its first word is taken whole by the
      original converter and cut at the word by the improved one. */
  lemma LanguagesDifferOnMoreWords(word: string, more: string)
    requires word != [] && forall i :: 0 <= i < |word| ==> !Improved.IsJsWhitespace(word[i])
    ensures CodeLanguage(Some(word + " " + more)) == word + " " + more
    ensures Improved.CodeLanguage(Some(word + " " + more)) == word
  {
    var s := word + " " + more;
    var r := Improved.LeadingToken(s);
    assert s[|word|] == ' ';
    assert s[..|word|] == word;
    assert |r| == |word|;
  }

  /** Where both name the same language, the improved block holds the
      escaped code where the original holds it verbatim, and the two agree
      on code that arrives already escaped. */
  lemma CodeBlocksCompared(code: string, info: Option<string>)
    requires CodeLanguage(info) == Improved.CodeLanguage(info)
    ensures Improved.Code(code, info, false) == Code(EscapeHtml(code), info)
    ensures Improved.Code(code, info, true) == Code(code, info)
  {
  }

  // ---------------------------------------------------------------------
  // Tables

  /** `renderer.table(header, body)`: the body rows always sit in a
      `tbody`, grouped from the inside out as the improved table is. */
  function Table(header: string, body: string): string {
    Improved.DivTagText + ("\n    " + (Improved.TableTagText + ("\n      " + (Improved.TheadTagText
      + (header + ("</thead>\n      " + ("<tbody>" + body + "</tbody>" + Improved.TableClose)))))))
  }

  /** Every original table has a `tbody`, even one without rows. */
  lemma TableAlwaysHasBody(header: string, body: string)
    ensures Contains(Table(header, body), "<tbody>")
  {
    var pat := "<tbody>";
    var rows := "<tbody>" + body + "</tbody>";
    var s6 := header + ("</thead>\n      " + (rows + Improved.TableClose));
    ContainsSelf(pat);
    ContainsInMiddle("", pat, body + "</tbody>", pat);
    assert "" + pat + (body + "</tbody>") == rows;
    ContainsLeft(rows, Improved.TableClose, pat);
    ContainsRight("</thead>\n      ", rows + Improved.TableClose, pat);
    ContainsRight(header, "</thead>\n      " + (rows + Improved.TableClose), pat);
    ContainsRight(Improved.TheadTagText, s6, pat);
    ContainsRight("\n      ", Improved.TheadTagText + s6, pat);
    ContainsRight(Improved.TableTagText, "\n      " + (Improved.TheadTagText + s6), pat);
    ContainsRight("\n    ", Improved.TableTagText + ("\n      " + (Improved.TheadTagText + s6)), pat);
    ContainsRight(Improved.DivTagText, "\n    " + (Improved.TableTagText + ("\n      " + (Improved.TheadTagText + s6))), pat);
  }

  /** With rows the two converters write the same table; without rows the
      original writes an empty `<tbody></tbody>` the improved one omits. */
  lemma TablesCompared(header: string, body: string)
    ensures body != "" ==> Improved.Table(header, body) == Table(header, body)
    ensures body == "" ==> |Table(header, body)| == |Improved.Table(header, body)| + 15
    ensures body == "" ==> Contains(Table(header, body), "<tbody>")
    ensures body == "" && !Contains(header, "<tbody>") ==> !Contains(Improved.Table(header, body), "<tbody>")
  {
    TableAlwaysHasBody(header, body);
    if !Contains(header, "<tbody>") {
      Improved.TableBodyIff(header, body);
    }
  }

  // ---------------------------------------------------------------------
  // The page template

  /** The stylesheet links, the inline stylesheet and `</head>`, each line
      with its line break (convert-to-html.js lines 13-105), held as an
      opaque text. */
  const LinksAndStyle: string

  /** The back-to-top button, the end of the container, the scripts and
      `</html>` (lines 110-149), held as an opaque text. */
  const ButtonAndScripts: string

  /** Where the content goes: the container that opens the body. */
  const BodyOpen: string := "<body>\n    " + ContainerMarker + "\n        "

  function HeadToTitle(): string {
    Improved.PageStart + ViewportMeta + "\n    " + "<title>"
  }

  function TitleToContent(): string {
    "</title>\n" + LinksAndStyle + BodyOpen
  }

  const ContentToEnd: string := "\n        \n" + ButtonAndScripts

  /** `createHTMLTemplate(title, content)` */
  function CreateHtmlTemplate(title: string, content: string): string {
    HeadToTitle() + title + TitleToContent() + content + ContentToEnd
  }

  /** Two pages that differ only in their title differ only inside
      `<title>`. */
  lemma TitleHole(t1: string, t2: string, content: string)
    ensures exists pre, post ::
              CreateHtmlTemplate(t1, content) == pre + t1 + post
              && CreateHtmlTemplate(t2, content) == pre + t2 + post
              && EndsWith(pre, "<title>") && StartsWith(post, "</title>")
  {
    var pre := HeadToTitle();
    var post := TitleToContent() + content + ContentToEnd;
    ConcatRegroup(pre, t1, TitleToContent(), content, ContentToEnd);
    ConcatRegroup(pre, t2, TitleToContent(), content, ContentToEnd);
    EndsWithAppend(Improved.PageStart + ViewportMeta + "\n    ", "<title>");
    StartsWithAppend("</title>", "\n" + LinksAndStyle + BodyOpen);
    assert TitleToContent() == "</title>" + ("\n" + LinksAndStyle + BodyOpen);
    StartsWithExtend(TitleToContent(), content, "</title>");
    StartsWithExtend(TitleToContent() + content, ContentToEnd, "</title>");
  }

  /** Two pages that differ only in their content differ only in one
      place, right inside the container that opens the body. */
  lemma ContentHole(title: string, c1: string, c2: string)
    ensures exists pre, post ::
              CreateHtmlTemplate(title, c1) == pre + c1 + post
              && CreateHtmlTemplate(title, c2) == pre + c2 + post
              && EndsWith(pre, BodyOpen)
  {
    var pre := HeadToTitle() + title + TitleToContent();
    assert CreateHtmlTemplate(title, c1) == pre + c1 + ContentToEnd;
    assert CreateHtmlTemplate(title, c2) == pre + c2 + ContentToEnd;
    EndsWithAppend("</title>\n" + LinksAndStyle, BodyOpen);
    EndsWithExtend(HeadToTitle() + title, TitleToContent(), BodyOpen);
  }
}
