/** The improved Markdown-to-HTML converter (convert-to-html-improved.js):
    the renderer overrides that turn already parsed Markdown pieces into
    HTML, the page template that wraps the rendered body, and the test that
    decides which tutorial a source file is. */
module ImprovedConverter {
  import opened JsString
  import opened HtmlEscape
  import opened HeadingSlug
  import opened HtmlTag
  import opened SiteMarkup

  // ---------------------------------------------------------------------
  // Headings

  /** `renderer.heading(text, level)`: the heading keeps its text and gets
      the id slugged from the text with its tags removed. */
  function Heading(text: string, level: nat): string {
    var n := DecimalString(level);
    "<h" + n + " id=\"" + HeadingId(text) + "\">" + text + "</h" + n + ">"
  }

  /** The start tag a heading opens with. */
  function HeadingTag(text: string, level: nat): StartTag {
    StartTag("h" + DecimalString(level), [Attribute("id", HeadingId(text))])
  }

  lemma HeadingTagWellFormed(text: string, level: nat)
    ensures WellFormed(HeadingTag(text, level))
  {
    HeadingNameIsName(level);
    IdIsName();
    HeadingIdIsSlug(text);
    SlugIsAttributeSafe(HeadingId(text));
  }

  lemma HeadingNameIsName(level: nat)
    ensures IsName("h" + DecimalString(level))
  {
    var d := DecimalString(level);
    var name := "h" + d;
    forall i | 0 <= i < |name| ensures IsNameChar(name[i]) {
      if i > 0 {
        assert name[i] == d[i - 1];
        assert IsDigit(d[i - 1]);
      }
    }
  }

  lemma IdIsName()
    ensures IsName("id")
  {
    assert IsNameChar('i') && IsNameChar('d');
  }

  /** Read back, a heading is an `h<level>` start tag whose only attribute
      is the slug id, followed by the heading text exactly as given and the
      matching end tag. */
  lemma HeadingSplit(n: string, id: string, text: string)
    ensures "<h" + n + " id=\"" + id + "\">" + text + "</h" + n + ">"
         == Render(StartTag("h" + n, [Attribute("id", id)])) + (text + "</h" + n + ">")
  {
    RenderSingle("h" + n, Attribute("id", id));
  }

  lemma HeadingParsesBack(text: string, level: nat)
    ensures Parse(Heading(text, level))
         == Some((HeadingTag(text, level), text + "</h" + DecimalString(level) + ">"))
    ensures IsSlug(HeadingId(text))
    ensures ParseDecimal(HeadingTag(text, level).name[1..]) == level
  {
    var n := DecimalString(level);
    var t := HeadingTag(text, level);
    HeadingSplit(n, HeadingId(text), text);
    HeadingTagWellFormed(text, level);
    ParseRender(t, text + "</h" + n + ">");
    HeadingIdIsSlug(text);
    assert t.name[1..] == n;
    ParseDecimalString(level);
  }

  // ---------------------------------------------------------------------
  // Code blocks

  /** `\s` of a JavaScript regular expression. */
  predicate IsJsWhitespace(c: char) {
    c == ' ' || c == '\t' || c == '\n' || c == '\U{000B}' || c == '\U{000C}' || c == '\r'
    || c == '\U{00A0}' || c == '\U{1680}' || '\U{2000}' <= c <= '\U{200A}'
    || c == '\U{2028}' || c == '\U{2029}' || c == '\U{202F}' || c == '\U{205F}'
    || c == '\U{3000}' || c == '\U{FEFF}'
  }

  /** `s.match(/\S*\/)[0]`: the longest prefix without whitespace. */
  function LeadingToken(s: string): (r: string)
    ensures StartsWith(s, r)
    ensures forall i :: 0 <= i < |r| ==> !IsJsWhitespace(r[i])
    ensures |r| == |s| || IsJsWhitespace(s[|r|])
  {
    if s == [] || IsJsWhitespace(s[0]) then []
    else
      var r := [s[0]] + LeadingToken(s[1..]);
      assert r[1..] == LeadingToken(s[1..]);
      r
  }

  /** `(infostring || '')`: an absent info string reads as empty. */
  function InfoText(info: Option<string>): string {
    if info.None? then "" else info.value
  }

  /** The language a code block is labelled with: the first word of the
      info string, or `javascript` when the info string is absent, empty or
      starts with whitespace. */
  function CodeLanguage(info: Option<string>): (r: string)
    ensures r != []
    ensures forall i :: 0 <= i < |r| ==> !IsJsWhitespace(r[i])
    ensures var s := InfoText(info);
            if s == [] || IsJsWhitespace(s[0]) then r == "javascript"
            else StartsWith(s, r) && (|r| == |s| || IsJsWhitespace(s[|r|]))
  {
    var lang := LeadingToken(InfoText(info));
    if lang == "" then "javascript" else lang
  }

  /** The start tags of a code block: a bare `pre` and a `code` whose
      class names the language. */
  function CodeOpen(info: Option<string>): string {
    "<pre>" + "<code class=\"language-" + CodeLanguage(info) + "\">"
  }

  /** `escaped ? code : escapeHtml(code)`: the block's text. */
  function CodeText(code: string, escaped: bool): string {
    if escaped then code else EscapeHtml(code)
  }

  /** `renderer.code(code, infostring, escaped)` */
  function Code(code: string, info: Option<string>, escaped: bool): string {
    CodeOpen(info) + CodeText(code, escaped) + "</code></pre>"
  }

  /** Between its start and end tags a block holds the code itself when it
      comes escaped, and otherwise the code escaped exactly once: a text
      with no `<`, `>` or quote (so the first `</code>` after it is the
      block's own end) that unescapes to the code. */
  lemma CodeEscapesOnce(code: string, info: Option<string>, escaped: bool)
    ensures exists text :: Code(code, info, escaped) == CodeOpen(info) + text + "</code></pre>"
              && (escaped ==> text == code)
              && (!escaped ==> text == EscapeHtml(code) && NoMarkupChars(text) && Unescape(text) == code)
  {
    var text := CodeText(code, escaped);
    assert Code(code, info, escaped) == CodeOpen(info) + text + "</code></pre>";
    EscapedHasNoMarkup(code);
    EscapeHtmlRoundTrip(code);
  }

  /** The `code` start tag of a block. */
  function CodeTag(info: Option<string>): StartTag {
    StartTag("code", [Attribute("class", "language-" + CodeLanguage(info))])
  }

  lemma CodeTagText(lang: string)
    ensures "<code class=\"language-" + lang + "\">"
         == Render(StartTag("code", [Attribute("class", "language-" + lang)]))
  {
    RenderSingle("code", Attribute("class", "language-" + lang));
  }

  lemma CodeSplit(lang: string, text: string)
    ensures "<pre>" + "<code class=\"language-" + lang + "\">" + text + "</code></pre>"
         == Render(StartTag("pre", [])) + (Render(StartTag("code", [Attribute("class", "language-" + lang)]))
            + (text + "</code></pre>"))
  {
    RenderBare("pre");
    CodeTagText(lang);
    var inner := "<code class=\"language-" + lang + "\">";
    assert "<pre>" + "<code class=\"language-" + lang + "\">" == "<pre>" + inner;
  }

  lemma CodeParse(lang: string, text: string)
    requires '"' !in lang
    ensures Parse("<pre>" + "<code class=\"language-" + lang + "\">" + text + "</code></pre>")
         == Some((StartTag("pre", []), Render(StartTag("code", [Attribute("class", "language-" + lang)]))
                                         + (text + "</code></pre>")))
    ensures Parse(Render(StartTag("code", [Attribute("class", "language-" + lang)])) + (text + "</code></pre>"))
         == Some((StartTag("code", [Attribute("class", "language-" + lang)]), text + "</code></pre>"))
  {
    var codeTag := StartTag("code", [Attribute("class", "language-" + lang)]);
    var after := text + "</code></pre>";
    CodeSplit(lang, text);
    PlainNameIsName("pre");
    PlainNameIsName("code");
    PlainNameIsName("class");
    assert '"' !in "language-";
    ParseRender(StartTag("pre", []), Render(codeTag) + after);
    ParseRender(codeTag, after);
  }

  /** Read back, a code block is a bare `pre` start tag followed by a
      `code` start tag whose class names the language, followed by the
      block's text, as long as the language has no `"` that would end the
      attribute early. */
  lemma CodeParsesBack(code: string, info: Option<string>, escaped: bool)
    requires '"' !in CodeLanguage(info)
    ensures Parse(Code(code, info, escaped))
         == Some((StartTag("pre", []), Render(CodeTag(info)) + (CodeText(code, escaped) + "</code></pre>")))
    ensures Parse(Render(CodeTag(info)) + (CodeText(code, escaped) + "</code></pre>"))
         == Some((CodeTag(info), CodeText(code, escaped) + "</code></pre>"))
  {
    CodeParse(CodeLanguage(info), CodeText(code, escaped));
  }

  // ---------------------------------------------------------------------
  // Inline code, tables, lists and links

  /** `renderer.codespan(text)`: the already escaped text inside one
      `code` element. */
  function Codespan(text: string): (r: string)
    ensures |r| == |text| + 13
    ensures StartsWith(r, "<code>") && EndsWith(r, "</code>")
    ensures r[6..|r| - 7] == text
  {
    "<code>" + text + "</code>"
  }

  // The three start tags a table opens with, and how it closes.
  const DivTagText: string := "<div class=\"table-responsive\">"
  const TableClasses: string := "table table-striped" + " table-hover"
  const TableTagText: string := "<table class=\"" + TableClasses + "\">"
  const TheadTagText: string := "<thead class=\"table-dark\">"
  const TableClose: string := "\n    </table>\n  </div>"

  /** `if (body) body = `<tbody>${body}</tbody>``: the body rows wrapped in
      `tbody`, or nothing at all when there are none. */
  function TableBody(body: string): string {
    if body != "" then "<tbody>" + body + "</tbody>" else body
  }

  /** Everything after the `thead` start tag: the header rows, the end of
      the `thead`, the body and the closing tags. */
  function AfterThead(header: string, body: string): string {
    header + ("</thead>\n      " + (TableBody(body) + TableClose))
  }

  /** `renderer.table(header, body)`, grouped from the inside out. */
  function Table(header: string, body: string): string {
    DivTagText + ("\n    " + (TableTagText + ("\n      " + (TheadTagText + AfterThead(header, body)))))
  }

  const DivTag: StartTag := StartTag("div", [Attribute("class", "table-responsive")])
  const TableTag: StartTag := StartTag("table", [Attribute("class", TableClasses)])
  const TheadTag: StartTag := StartTag("thead", [Attribute("class", "table-dark")])

  lemma DivTagRendered()
    ensures Render(DivTag) == DivTagText
  {
    RenderSingle("div", Attribute("class", "table-responsive"));
    assert "<" + "div" + " " + "class" + "=\"" + "table-responsive" + "\"" + ">" == DivTagText;
  }

  lemma TableTagRendered()
    ensures Render(TableTag) == TableTagText
  {
    RenderSingle("table", Attribute("class", TableClasses));
  }

  lemma TheadTagRendered()
    ensures Render(TheadTag) == TheadTagText
  {
    RenderSingle("thead", Attribute("class", "table-dark"));
    assert "<" + "thead" + " " + "class" + "=\"" + "table-dark" + "\"" + ">" == TheadTagText;
  }

  lemma TableTagsWellFormed()
    ensures WellFormed(DivTag) && WellFormed(TableTag) && WellFormed(TheadTag)
  {
    DivTagWellFormed();
    TableTagWellFormed();
    TheadTagWellFormed();
  }

  lemma DivTagWellFormed() ensures WellFormed(DivTag)
  {
    PlainNameIsName("div");
    PlainNameIsName("class");
  }

  lemma TableTagWellFormed() ensures WellFormed(TableTag)
  {
    PlainNameIsName("table");
    PlainNameIsName("class");
    assert '"' !in TableClasses;
  }

  lemma TheadTagWellFormed() ensures WellFormed(TheadTag)
  {
    PlainNameIsName("thead");
    PlainNameIsName("class");
  }

  /** The header rows sit in a `thead` inside a striped hover table inside
      a `table-responsive` div: three start tags, read back one after the
      other, with the header rows right after the last. */
  lemma TableNesting(header: string, body: string)
    ensures Parse(Table(header, body))
         == Some((DivTag, "\n    " + (Render(TableTag) + ("\n      " + (Render(TheadTag) + AfterThead(header, body))))))
    ensures Parse(Render(TableTag) + ("\n      " + (Render(TheadTag) + AfterThead(header, body))))
         == Some((TableTag, "\n      " + (Render(TheadTag) + AfterThead(header, body))))
    ensures Parse(Render(TheadTag) + AfterThead(header, body)) == Some((TheadTag, AfterThead(header, body)))
    ensures StartsWith(AfterThead(header, body), header)
  {
    var after := AfterThead(header, body);
    DivTagRendered();
    TableTagRendered();
    TheadTagRendered();
    TableTagsWellFormed();
    ParseRender(DivTag, "\n    " + (Render(TableTag) + ("\n      " + (Render(TheadTag) + after))));
    ParseRender(TableTag, "\n      " + (Render(TheadTag) + after));
    ParseRender(TheadTag, after);
    StartsWithAppend(header, "</thead>\n      " + (TableBody(body) + TableClose));
  }

  lemma DivTagNoY() ensures 'y' !in DivTagText {}
  lemma TableTagNoY() ensures 'y' !in TableTagText {}
  lemma TheadTagNoY() ensures 'y' !in TheadTagText {}
  lemma TableCloseNoY() ensures 'y' !in "</thead>\n      " + ("" + TableClose) {}

  /** Joining a `<tbody>`-free piece that ends in `>` or a space to a
      `<tbody>`-free rest makes no `<tbody>`. */
  lemma JoinNoBody(a: string, b: string)
    requires 'y' !in a && a != [] && (a[|a| - 1] == '>' || a[|a| - 1] == ' ')
    requires !Contains(b, "<tbody>")
    ensures !Contains(a + b, "<tbody>")
  {
    NotContainsByChar(a, "<tbody>", 'y');
    ContainsConcat(a, b, "<tbody>");
  }

  /** A table has a `<tbody>` exactly when it has body rows (for a header
      that does not itself contain one). */
  lemma TableBodyIff(header: string, body: string)
    requires !Contains(header, "<tbody>")
    ensures Contains(Table(header, body), "<tbody>") <==> body != ""
  {
    var pat := "<tbody>";
    if body != "" {
      var rows := TableBody(body);
      ContainsSelf(pat);
      ContainsInMiddle("", pat, body + "</tbody>", pat);
      assert "" + pat + (body + "</tbody>") == rows;
      ContainsLeft(rows, TableClose, pat);
      ContainsRight("</thead>\n      ", rows + TableClose, pat);
      ContainsRight(header, "</thead>\n      " + (rows + TableClose), pat);
      ContainsRight(TheadTagText, AfterThead(header, body), pat);
      ContainsRight("\n      ", TheadTagText + AfterThead(header, body), pat);
      ContainsRight(TableTagText, "\n      " + (TheadTagText + AfterThead(header, body)), pat);
      ContainsRight("\n    ", TableTagText + ("\n      " + (TheadTagText + AfterThead(header, body))), pat);
      ContainsRight(DivTagText, "\n    " + (TableTagText + ("\n      " + (TheadTagText + AfterThead(header, body)))), pat);
    } else {
      var s7 := "</thead>\n      " + ("" + TableClose);
      TableCloseNoY();
      NotContainsByChar(s7, pat, 'y');
      assert s7[0] == '<';
      ContainsConcat(header, s7, pat);
      var s6 := AfterThead(header, body);
      assert s6 == header + s7;
      TheadTagNoY();
      JoinNoBody(TheadTagText, s6);
      JoinNoBody("\n      ", TheadTagText + s6);
      TableTagNoY();
      JoinNoBody(TableTagText, "\n      " + (TheadTagText + s6));
      JoinNoBody("\n    ", TableTagText + ("\n      " + (TheadTagText + s6)));
      DivTagNoY();
      JoinNoBody(DivTagText, "\n    " + (TableTagText + ("\n      " + (TheadTagText + s6))));
    }
  }

  /** `ordered ? 'ol' : 'ul'` */
  function ListTagName(ordered: bool): string {
    if ordered then "ol" else "ul"
  }

  /** `renderer.list(body, ordered, start)`: `start` is the number the
      Markdown list begins with. */
  function List(body: string, ordered: bool, start: nat): string {
    var tag := ListTagName(ordered);
    var startAttr := if ordered && start != 1 then " start=\"" + DecimalString(start) + "\"" else "";
    "<" + tag + startAttr + ">\n" + body + "</" + tag + ">\n"
  }

  /** The attributes a list's start tag carries. */
  function ListAttributes(ordered: bool, start: nat): seq<Attribute> {
    if ordered && start != 1 then [Attribute("start", DecimalString(start))] else []
  }

  lemma ListSplit(tag: string, attrs: seq<Attribute>, startAttr: string, body: string)
    requires RenderAttributes(attrs) == startAttr
    ensures "<" + tag + startAttr + ">\n" + body + "</" + tag + ">\n"
         == Render(StartTag(tag, attrs)) + ("\n" + body + "</" + tag + ">\n")
  {
  }

  lemma ListAttributesRendered(ordered: bool, start: nat)
    ensures RenderAttributes(ListAttributes(ordered, start))
         == if ordered && start != 1 then " start=\"" + DecimalString(start) + "\"" else ""
  {
    if ordered && start != 1 {
      RenderOneAttribute(Attribute("start", DecimalString(start)));
    }
  }

  /** Read back, a list opens with `ol` exactly when it is ordered; it has
      a `start` attribute exactly when it is ordered and does not begin at
      1, and that attribute reads back as the number it begins at. */
  lemma ListParsesBack(body: string, ordered: bool, start: nat)
    ensures Parse(List(body, ordered, start))
         == Some((StartTag(ListTagName(ordered), ListAttributes(ordered, start)),
                  "\n" + body + "</" + ListTagName(ordered) + ">\n"))
    ensures (ListTagName(ordered) == "ol") == ordered
    ensures Lookup(ListAttributes(ordered, start), "start").Some? <==> ordered && start != 1
    ensures Lookup(ListAttributes(ordered, start), "start").Some? ==>
              ParseDecimal(Lookup(ListAttributes(ordered, start), "start").value) == start
  {
    var tag := ListTagName(ordered);
    var attrs := ListAttributes(ordered, start);
    var startAttr := if ordered && start != 1 then " start=\"" + DecimalString(start) + "\"" else "";
    ListAttributesRendered(ordered, start);
    ListSplit(tag, attrs, startAttr, body);
    PlainNameIsName(tag);
    PlainNameIsName("start");
    assert '"' !in DecimalString(start) by {
      assert forall i :: 0 <= i < |DecimalString(start)| ==> IsDigit(DecimalString(start)[i]);
    }
    ParseRender(StartTag(tag, attrs), "\n" + body + "</" + tag + ">\n");
    ParseDecimalString(start);
  }

  /** `href` starts with `http://` or `https://`, compared case-sensitively. */
  predicate IsExternal(href: string) {
    StartsWith(href, "http://") || StartsWith(href, "https://")
  }

  /** `if (title)`: a title that is present and not empty. */
  predicate HasTitle(title: Option<string>) {
    title.Some? && title.value != ""
  }

  /** `renderer.link(href, title, text)` */
  function Link(href: string, title: Option<string>, text: string): string {
    var link := "<a href=\"" + href + "\"";
    var link := if HasTitle(title) then link + " title=\"" + title.value + "\"" else link;
    var link := if IsExternal(href) then link + TargetText else link;
    link + ">" + text + "</a>"
  }

  /** `' target="_blank" rel="noopener noreferrer"'` */
  const TargetText: string := " target=\"_blank\"" + " rel=\"noopener noreferrer\""

  function TitleAttributes(title: Option<string>): seq<Attribute> {
    if HasTitle(title) then [Attribute("title", title.value)] else []
  }

  function TargetAttributes(href: string): seq<Attribute> {
    if IsExternal(href) then [Attribute("target", "_blank"), Attribute("rel", "noopener noreferrer")] else []
  }

  /** The attributes of a link's start tag, in the order they are written. */
  function LinkAttributes(href: string, title: Option<string>): seq<Attribute> {
    [Attribute("href", href)] + TitleAttributes(title) + TargetAttributes(href)
  }

  lemma TitleAttributesRendered(title: Option<string>)
    ensures RenderAttributes(TitleAttributes(title))
         == if HasTitle(title) then " title=\"" + title.value + "\"" else ""
  {
    if HasTitle(title) {
      RenderOneAttribute(Attribute("title", title.value));
    }
  }

  lemma TargetAttributesRendered(href: string)
    ensures RenderAttributes(TargetAttributes(href))
         == if IsExternal(href) then TargetText else ""
  {
    if IsExternal(href) {
      TargetPairRendered();
    }
  }

  lemma TargetPairRendered()
    ensures RenderAttributes([Attribute("target", "_blank"), Attribute("rel", "noopener noreferrer")]) == TargetText
  {
    var t := Attribute("target", "_blank");
    var r := Attribute("rel", "noopener noreferrer");
    RenderAttributesConcat([t], [r]);
    assert [t] + [r] == [t, r];
    RenderOneAttribute(t);
    RenderOneAttribute(r);
    TargetPieces();
  }

  lemma TargetPieces()
    ensures " " + "target" + "=\"" + "_blank" + "\"" == " target=\"_blank\""
    ensures " " + "rel" + "=\"" + "noopener noreferrer" + "\"" == " rel=\"noopener noreferrer\""
  {
  }

  lemma LinkSplit(href: string, titlePart: string, targetPart: string, text: string,
                  attrs: seq<Attribute>)
    requires RenderAttributes(attrs) == " href=\"" + href + "\"" + titlePart + targetPart
    ensures "<a href=\"" + href + "\"" + titlePart + targetPart + ">" + text + "</a>"
         == Render(StartTag("a", attrs)) + (text + "</a>")
  {
  }

  lemma LinkAttributesRendered(href: string, title: Option<string>)
    ensures RenderAttributes(LinkAttributes(href, title))
         == " href=\"" + href + "\""
            + (if HasTitle(title) then " title=\"" + title.value + "\"" else "")
            + (if IsExternal(href) then TargetText else "")
  {
    var h := Attribute("href", href);
    var titles, targets := TitleAttributes(title), TargetAttributes(href);
    RenderAttributesConcat([h] + titles, targets);
    RenderAttributesConcat([h], titles);
    RenderOneAttribute(h);
    TitleAttributesRendered(title);
    TargetAttributesRendered(href);
    assert RenderAttributes([h]) == " href=\"" + href + "\"";
  }

  lemma LinkAttributesWellFormed(href: string, title: Option<string>)
    requires '"' !in href
    requires title.Some? ==> '"' !in title.value
    ensures WellFormed(StartTag("a", LinkAttributes(href, title)))
  {
    PlainNameIsName("a");
    PlainNameIsName("href");
    PlainNameIsName("title");
    PlainNameIsName("target");
    PlainNameIsName("rel");
    assert '"' !in "_blank" && '"' !in "noopener noreferrer";
  }

  lemma TargetLookups(href: string)
    ensures Lookup(TargetAttributes(href), "target") == (if IsExternal(href) then Some("_blank") else None)
    ensures Lookup(TargetAttributes(href), "rel") == (if IsExternal(href) then Some("noopener noreferrer") else None)
    ensures Lookup(TargetAttributes(href), "title") == None
  {
    var attrs := TargetAttributes(href);
    if IsExternal(href) {
      assert attrs[1..] == [Attribute("rel", "noopener noreferrer")];
      assert attrs[1..][1..] == [];
      assert Lookup(attrs[1..][1..], "title") == None;
      assert Lookup(attrs[1..], "title") == None;
    }
  }

  lemma TitleLookups(href: string, title: Option<string>)
    ensures Lookup(TitleAttributes(title) + TargetAttributes(href), "title")
         == (if HasTitle(title) then Some(title.value) else None)
    ensures Lookup(TitleAttributes(title) + TargetAttributes(href), "target")
         == Lookup(TargetAttributes(href), "target")
    ensures Lookup(TitleAttributes(title) + TargetAttributes(href), "rel")
         == Lookup(TargetAttributes(href), "rel")
  {
    var rest := TitleAttributes(title) + TargetAttributes(href);
    TargetLookups(href);
    if HasTitle(title) {
      assert rest[0].name == "title";
      assert rest[1..] == TargetAttributes(href);
    } else {
      assert rest == TargetAttributes(href);
    }
  }

  /** Each attribute a link can carry, looked up by name. */
  lemma LinkLookups(href: string, title: Option<string>)
    ensures Lookup(LinkAttributes(href, title), "href") == Some(href)
    ensures Lookup(LinkAttributes(href, title), "title") == (if HasTitle(title) then Some(title.value) else None)
    ensures Lookup(LinkAttributes(href, title), "target") == (if IsExternal(href) then Some("_blank") else None)
    ensures Lookup(LinkAttributes(href, title), "rel") == (if IsExternal(href) then Some("noopener noreferrer") else None)
  {
    var attrs := LinkAttributes(href, title);
    var rest := TitleAttributes(title) + TargetAttributes(href);
    assert attrs == [Attribute("href", href)] + rest;
    assert attrs[1..] == rest;
    TitleLookups(href, title);
    TargetLookups(href);
  }

  lemma LinkText(href: string, title: Option<string>, text: string)
    ensures Link(href, title, text)
         == "<a href=\"" + href + "\""
            + (if HasTitle(title) then " title=\"" + title.value + "\"" else "")
            + (if IsExternal(href) then TargetText else "")
            + ">" + text + "</a>"
  {
  }

  /** Read back (for an `href` and title without `"`, which the model
      assumes of its inputs), a link is an `a` start tag whose
      `href` is the target, which has a `title` exactly when a non-empty
      title was given, and `target="_blank"` with `rel` exactly when the
      target is external; the link text follows verbatim. */
  lemma LinkParsesBack(href: string, title: Option<string>, text: string)
    requires '"' !in href
    requires title.Some? ==> '"' !in title.value
    ensures Parse(Link(href, title, text)) == Some((StartTag("a", LinkAttributes(href, title)), text + "</a>"))
    ensures Lookup(LinkAttributes(href, title), "href") == Some(href)
    ensures Lookup(LinkAttributes(href, title), "title") == (if HasTitle(title) then Some(title.value) else None)
    ensures Lookup(LinkAttributes(href, title), "target") == (if IsExternal(href) then Some("_blank") else None)
    ensures Lookup(LinkAttributes(href, title), "rel") == (if IsExternal(href) then Some("noopener noreferrer") else None)
  {
    var attrs := LinkAttributes(href, title);
    var titlePart := if HasTitle(title) then " title=\"" + title.value + "\"" else "";
    var targetPart := if IsExternal(href) then TargetText else "";
    LinkAttributesRendered(href, title);
    LinkText(href, title, text);
    LinkSplit(href, titlePart, targetPart, text, attrs);
    LinkAttributesWellFormed(href, title);
    ParseRender(StartTag("a", attrs), text + "</a>");
    LinkLookups(href, title);
  }

  // ---------------------------------------------------------------------
  // The page template

  /** The stylesheet links, the inline stylesheet and the site header of
      the template, each line with its line break (convert-to-html-improved.js
      lines 18-431), held as an opaque text. */
  const StylesAndHeader: string

  /** The footer, the back-to-top button and the scripts, through
      `</html>` (lines 467-581), held as an opaque text. */
  const FooterAndScripts: string

  const PageStart: string := "<!DOCTYPE html>\n<html lang=\"ja\">\n<head>\n    <meta charset=\"UTF-8\">\n    "

  /** The comment and the start tag of the breadcrumb bar. */
  const BreadcrumbNavOpen: string := "    <!-- Breadcrumb -->\n    <nav class=\"breadcrumb-nav\">\n        "

  /** Where the content goes: inside `<main>`'s container. */
  const ContainerOpen: string := "<main>\n        " + ContainerMarker + "\n            "

  /** The navigation block as the template indents it. */
  function PageNavBlock(forNode: bool): string {
    "\n" + RenderNav(Spaces(12), PageNav(forNode)) + "\n" + Spaces(12)
  }

  // The template is fixed text around two holes, the title and the
  // content; the flag picks the description, the breadcrumb label and the
  // buttons. These are the three stretches of fixed text.

  /** From `<!DOCTYPE html>` up to the title. */
  function HeadToTitle(forNode: bool): string {
    PageStart + HeadMetaBlock(PageDescription(forNode)) + "\n    " + "<title>"
  }

  /** From the end of the title up to the content. */
  function TitleToContent(forNode: bool): string {
    "</title>\n" + StylesAndHeader + BreadcrumbNavOpen + BreadcrumbBody(PageTitle(forNode))
    + "\n    \n    " + ContainerOpen
  }

  /** From the end of the content to `</html>`. */
  function ContentToEnd(forNode: bool): string {
    "\n            \n            " + PageNavBlock(forNode) + "\n        </div>\n    </main>\n" + FooterAndScripts
  }

  /** `createHTMLTemplate(title, content, isNodejsTutorial)` */
  function CreateHtmlTemplate(title: string, content: string, forNode: bool): string {
    HeadToTitle(forNode) + title + TitleToContent(forNode) + content + ContentToEnd(forNode)
  }

  lemma TitleToContentStart(forNode: bool)
    ensures StartsWith(TitleToContent(forNode), "</title>")
  {
    var t := "</title>\n";
    StartsWithAppend("</title>", "\n");
    StartsWithExtend(t, StylesAndHeader, "</title>");
    StartsWithExtend(t + StylesAndHeader, BreadcrumbNavOpen, "</title>");
    var u := t + StylesAndHeader + BreadcrumbNavOpen;
    StartsWithExtend(u, BreadcrumbBody(PageTitle(forNode)), "</title>");
    StartsWithExtend(u + BreadcrumbBody(PageTitle(forNode)), "\n    \n    ", "</title>");
    StartsWithExtend(u + BreadcrumbBody(PageTitle(forNode)) + "\n    \n    ", ContainerOpen, "</title>");
  }

  /** Two pages that differ only in their title differ only inside
      `<title>`: the title goes in once, verbatim, and nothing else depends
      on it, not the breadcrumb label and not the description. */
  lemma TitleHole(t1: string, t2: string, content: string, forNode: bool)
    ensures exists pre, post ::
              CreateHtmlTemplate(t1, content, forNode) == pre + t1 + post
              && CreateHtmlTemplate(t2, content, forNode) == pre + t2 + post
              && EndsWith(pre, "<title>") && StartsWith(post, "</title>")
  {
    var pre := HeadToTitle(forNode);
    var post := TitleToContent(forNode) + content + ContentToEnd(forNode);
    ConcatRegroup(pre, t1, TitleToContent(forNode), content, ContentToEnd(forNode));
    ConcatRegroup(pre, t2, TitleToContent(forNode), content, ContentToEnd(forNode));
    EndsWithAppend(PageStart + HeadMetaBlock(PageDescription(forNode)) + "\n    ", "<title>");
    TitleToContentStart(forNode);
    StartsWithExtend(TitleToContent(forNode), content, "</title>");
    StartsWithExtend(TitleToContent(forNode) + content, ContentToEnd(forNode), "</title>");
  }

  /** After the content comes a blank line and then the buttons. */
  lemma ContentToEndStart(forNode: bool)
    ensures StartsWith(ContentToEnd(forNode), "\n            \n            \n" + NavOpen(Spaces(12)))
  {
    var indent := Spaces(12);
    var links := PageNav(forNode);
    var lead := "\n            \n            ";
    StartsWithAppend(NavOpen(indent), NavButtons(indent + "    ", links));
    StartsWithExtend(NavOpen(indent) + NavButtons(indent + "    ", links), indent + "</div>", NavOpen(indent));
    StartsWithPrepend("\n", RenderNav(indent, links), NavOpen(indent));
    StartsWithExtend("\n" + RenderNav(indent, links), "\n", "\n" + NavOpen(indent));
    StartsWithExtend("\n" + RenderNav(indent, links) + "\n", indent, "\n" + NavOpen(indent));
    StartsWithPrepend(lead, PageNavBlock(forNode), "\n" + NavOpen(indent));
    StartsWithExtend(lead + PageNavBlock(forNode), "\n        </div>\n    </main>\n", lead + ("\n" + NavOpen(indent)));
    StartsWithExtend(lead + PageNavBlock(forNode) + "\n        </div>\n    </main>\n", FooterAndScripts,
                     lead + ("\n" + NavOpen(indent)));
    assert lead + ("\n" + NavOpen(indent)) == "\n            \n            \n" + NavOpen(indent);
  }

  /** Two pages that differ only in their content differ only in one place,
      right inside `<main>`'s container and right before the buttons. */
  lemma ContentHole(title: string, c1: string, c2: string, forNode: bool)
    ensures exists pre, post ::
              CreateHtmlTemplate(title, c1, forNode) == pre + c1 + post
              && CreateHtmlTemplate(title, c2, forNode) == pre + c2 + post
              && EndsWith(pre, ContainerOpen)
              && StartsWith(post, "\n            \n            \n" + NavOpen(Spaces(12)))
  {
    var pre := HeadToTitle(forNode) + title + TitleToContent(forNode);
    var post := ContentToEnd(forNode);
    EndsWithAppend("</title>\n" + StylesAndHeader + BreadcrumbNavOpen + BreadcrumbBody(PageTitle(forNode))
                   + "\n    \n    ", ContainerOpen);
    EndsWithExtend(HeadToTitle(forNode) + title, TitleToContent(forNode), ContainerOpen);
    ContentToEndStart(forNode);
  }

  lemma DescriptionInHead(forNode: bool)
    ensures Contains(HeadToTitle(forNode), DescriptionMeta(PageDescription(forNode)))
  {
    var meta := HeadMetaBlock(PageDescription(forNode));
    var d := DescriptionMeta(PageDescription(forNode));
    ContainsRight(PageStart, meta, d);
    ContainsLeft(PageStart + meta, "\n    ", d);
    ContainsLeft(PageStart + meta + "\n    ", "<title>", d);
  }

  lemma BreadcrumbInMiddle(forNode: bool)
    ensures Contains(TitleToContent(forNode), BreadcrumbBody(PageTitle(forNode)))
  {
    var b := BreadcrumbBody(PageTitle(forNode));
    var lead := "</title>\n" + StylesAndHeader + BreadcrumbNavOpen;
    ContainsSelf(b);
    ContainsRight(lead, b, b);
    ContainsLeft(lead + b, "\n    \n    ", b);
    ContainsLeft(lead + b + "\n    \n    ", ContainerOpen, b);
  }

  lemma ButtonsAtEnd(forNode: bool, i: nat)
    requires i < |PageNav(forNode)|
    ensures Contains(ContentToEnd(forNode), AnchorTo(PageNav(forNode)[i].href))
  {
    var indent := Spaces(12);
    var a := AnchorTo(PageNav(forNode)[i].href);
    var nav := RenderNav(indent, PageNav(forNode));
    var lead := "\n            \n            ";
    RenderNavLinksEach(indent, PageNav(forNode), i);
    ContainsRight("\n", nav, a);
    ContainsLeft("\n" + nav, "\n", a);
    ContainsLeft("\n" + nav + "\n", indent, a);
    ContainsRight(lead, PageNavBlock(forNode), a);
    ContainsLeft(lead + PageNavBlock(forNode), "\n        </div>\n    </main>\n", a);
    ContainsLeft(lead + PageNavBlock(forNode) + "\n        </div>\n    </main>\n", FooterAndScripts, a);
  }

  lemma PageHasDescription(title: string, content: string, forNode: bool)
    ensures Contains(CreateHtmlTemplate(title, content, forNode), DescriptionMeta(PageDescription(forNode)))
  {
    var h := HeadToTitle(forNode);
    var m := TitleToContent(forNode);
    var d := DescriptionMeta(PageDescription(forNode));
    DescriptionInHead(forNode);
    ContainsLeft(h, title, d);
    ContainsLeft(h + title, m, d);
    ContainsLeft(h + title + m, content, d);
    ContainsLeft(h + title + m + content, ContentToEnd(forNode), d);
  }

  lemma PageHasBreadcrumb(title: string, content: string, forNode: bool)
    ensures Contains(CreateHtmlTemplate(title, content, forNode), BreadcrumbBody(PageTitle(forNode)))
  {
    var h := HeadToTitle(forNode);
    var m := TitleToContent(forNode);
    var b := BreadcrumbBody(PageTitle(forNode));
    BreadcrumbInMiddle(forNode);
    ContainsRight(h + title, m, b);
    ContainsLeft(h + title + m, content, b);
    ContainsLeft(h + title + m + content, ContentToEnd(forNode), b);
  }

  lemma PageHasButton(title: string, content: string, forNode: bool, i: nat)
    requires i < |PageNav(forNode)|
    ensures Contains(CreateHtmlTemplate(title, content, forNode), AnchorTo(PageNav(forNode)[i].href))
  {
    ButtonsAtEnd(forNode, i);
    ContainsRight(HeadToTitle(forNode) + title + TitleToContent(forNode) + content, ContentToEnd(forNode),
                  AnchorTo(PageNav(forNode)[i].href));
  }

  /** The flag alone decides the description, the breadcrumb label and
      where the buttons lead. */
  lemma FlagParts(title: string, content: string, forNode: bool)
    ensures Contains(CreateHtmlTemplate(title, content, forNode), DescriptionMeta(PageDescription(forNode)))
    ensures Contains(CreateHtmlTemplate(title, content, forNode), BreadcrumbBody(PageTitle(forNode)))
    ensures forall i :: 0 <= i < |PageNav(forNode)| ==>
              Contains(CreateHtmlTemplate(title, content, forNode), AnchorTo(PageNav(forNode)[i].href))
  {
    PageHasDescription(title, content, forNode);
    PageHasBreadcrumb(title, content, forNode);
    forall i | 0 <= i < |PageNav(forNode)|
      ensures Contains(CreateHtmlTemplate(title, content, forNode), AnchorTo(PageNav(forNode)[i].href))
    {
      PageHasButton(title, content, forNode, i);
    }
  }

  /** `inputFile.includes('nodejs-tutorial')` */
  predicate IsNodejsTutorial(inputFile: string) {
    Contains(inputFile, "nodejs-tutorial")
  }

  /** The two source files the converter is run on are told apart
      correctly, in any directory whose path does not itself mention
      `nodejs-tutorial`. */
  lemma NodeFileMatches(dir: string)
    ensures IsNodejsTutorial(dir + "nodejs-tutorial.md")
  {
    var pat := "nodejs-tutorial";
    ContainsSelf(pat);
    ContainsInMiddle(dir, pat, ".md", pat);
    assert pat + ".md" == "nodejs-tutorial.md";
    assert dir + pat + ".md" == dir + (pat + ".md");
  }

  lemma ExpressFileDoesNot(dir: string)
    requires dir == [] || dir[|dir| - 1] == '/'
    requires !Contains(dir, "nodejs-tutorial")
    ensures !IsNodejsTutorial(dir + "express-tutorial.md")
  {
    var pat := "nodejs-tutorial";
    var file := "express-tutorial.md";
    assert 'j' in pat;
    assert 'j' !in file;
    NotContainsByChar(file, pat, 'j');
    if dir == [] {
      assert dir + file == file;
    } else {
      assert '/' !in pat;
      assert Separated(dir, file, pat);
      ContainsConcat(dir, file, pat);
    }
  }

  lemma TutorialFilesTold(dir: string)
    requires dir == [] || dir[|dir| - 1] == '/'
    requires !Contains(dir, "nodejs-tutorial")
    ensures IsNodejsTutorial(dir + "nodejs-tutorial.md")
    ensures !IsNodejsTutorial(dir + "express-tutorial.md")
  {
    NodeFileMatches(dir);
    ExpressFileDoesNot(dir);
  }

  /** The page `convertMarkdownToHTML` writes for a source file, given the
      HTML the Markdown parser made of it. */
  function ConvertedPage(inputFile: string, title: string, html: string): string {
    CreateHtmlTemplate(title, html, IsNodejsTutorial(inputFile))
  }

  /** Each source file's page carries its own tutorial's description and
      breadcrumb: the Node.js ones for `nodejs-tutorial.md`, the
      Express.js ones for `express-tutorial.md`. */
  lemma ConvertedPagesOfTheirKind(dir: string, title: string, html: string)
    requires dir == [] || dir[|dir| - 1] == '/'
    requires !Contains(dir, "nodejs-tutorial")
    ensures var page := ConvertedPage(dir + "nodejs-tutorial.md", title, html);
      Contains(page, DescriptionMeta(NodeDescription)) && Contains(page, BreadcrumbBody(NodeTitle))
    ensures var page := ConvertedPage(dir + "express-tutorial.md", title, html);
      Contains(page, DescriptionMeta(ExpressDescription)) && Contains(page, BreadcrumbBody(ExpressTitle))
  {
    TutorialFilesTold(dir);
    PageHasDescription(title, html, true);
    PageHasBreadcrumb(title, html, true);
    PageHasDescription(title, html, false);
    PageHasBreadcrumb(title, html, false);
  }
}
