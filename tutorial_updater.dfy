/** The shell injector (update-tutorials.js): `updateTutorialHTML` rewrites
    one already generated tutorial page through a fixed sequence of
    anchor-based splices. Each splice is specified by a step function; the
    method follows the source's statements and is proved to compute the
    composition of the steps. */
module TutorialUpdater {
  import opened JsString
  import opened SiteMarkup

  // ---------------------------------------------------------------------
  // The constant markup

  const BootstrapLink: string :=
    "<link href=\"https://cdn.jsdelivr.net/npm/bootstrap@5.3.0/dist/css/bootstrap.min.css\" rel=\"stylesheet\">"

  const FontAwesomeLink: string :=
    "<link href=\"https://cdnjs.cloudflare.com/ajax/libs/" + "font-awesome" + "/6.4.0/css/all.min.css\" rel=\"stylesheet\">"

  /** Text with no `{` and no breadcrumb container marker. */
  type HeaderLeadText = s: string | '{' !in s && !Contains(s, ContainerMarker) witness ""

  /** The site header and the breadcrumb bar's start tag, through the
      indentation before the breadcrumb's container (update-tutorials.js
      lines 4-21 and the start of line 22), held as an opaque text. */
  const HeaderLead: HeaderLeadText

  /** `headerHTML`: the lead and the breadcrumb naming `{TITLE}`. */
  const HeaderHtml: string := HeaderLead + BreadcrumbBody("{TITLE}")

  /** `footerHTML`, `additionalStyles` and `additionalScripts`, held as
      opaque texts. */
  const FooterHtml: string
  const AdditionalStyles: string
  const AdditionalScripts: string

  // ---------------------------------------------------------------------
  // The steps, one function per splice

  /** Lines 178-184: the Font Awesome link goes after the Bootstrap link,
      unless the page already mentions `font-awesome`. */
  function AddFontAwesome(html: string): string {
    if Contains(html, "font-awesome") then html
    else ReplaceFirst(html, BootstrapLink, BootstrapLink + "\n    " + FontAwesomeLink)
  }

  /** Line 187: the extra styles go before the first `</head>`. */
  function AddStyles(html: string): string {
    ReplaceFirst(html, "</head>", AdditionalStyles + "\n</head>")
  }

  /** Line 190: the header with its first `{TITLE}` replaced. */
  function HeaderWithTitle(title: string): string {
    ReplaceFirst(HeaderHtml, "{TITLE}", title)
  }

  /** Line 191: the header goes right after the first `<body>`. */
  function AddHeader(html: string, title: string): string {
    ReplaceFirst(html, "<body>", "<body>\n" + HeaderWithTitle(title))
  }

  /** Lines 194-204: `<main>` opens before the first container marker at or
      after the first `<body>` (anywhere, when there is no `<body>`), and
      closes after the first `</div>` from there on. */
  function WrapMain(html: string): string {
    var k := WrapStart(html);
    if k == -1 then html
    else html[..k] + "<main>\n" + ReplaceFirst(html[k..], "</div>", "</div>\n</main>")
  }

  /** Where `<main>` opens: the first marker at or after the first
      `<body>`, the first marker anywhere when there is no `<body>`, and
      -1 when there is no such marker. */
  function WrapStart(html: string): (k: int)
    ensures k == -1 || OccursAt(html, ContainerMarker, k)
    ensures Contains(html, "<body>") && k != -1 ==> IndexOf(html, "<body>") <= k
    ensures Contains(html, "<body>") && k == -1 ==>
              forall j :: IndexOf(html, "<body>") <= j ==> !OccursAt(html, ContainerMarker, j)
    ensures !Contains(html, "<body>") ==> k == IndexOf(html, ContainerMarker)
    ensures !Contains(html, ContainerMarker) ==> k == -1
  {
    var b := IndexOf(html, "<body>");
    IndexOfFrom(html, ContainerMarker, if b < 0 then 0 else b)
  }

  /** Lines 207-223: the buttons of the Node.js page exactly when the title
      is the Node.js page's title, those of the Express.js page otherwise. */
  function NavigationButtons(title: string): string {
    RenderNav(Spaces(4), PageNav(title == NodeTitle))
  }

  /** Line 226: buttons, footer and scripts go before the first `</body>`. */
  function AddFooter(html: string, title: string): string {
    ReplaceFirst(html, "</body>",
                 NavigationButtons(title) + "\n" + FooterHtml + "\n\n" + AdditionalScripts + "\n</body>")
  }

  /** Lines 229-231. */
  function Description(title: string): string {
    PageDescription(title == NodeTitle)
  }

  // `/<meta name="viewport"[^>]*>/` without the `g` flag: the leftmost
  // match, which runs from `<meta name="viewport"` to the first `>` after it.

  /** The regular expression matches `s[i..e]`. */
  predicate ViewportMatchAt(s: string, i: int, e: int) {
    OccursAt(s, ViewportOpen, i) && i + |ViewportOpen| < e <= |s|
    && s[e - 1] == '>' && '>' !in s[i + |ViewportOpen|..e - 1]
  }

  /** Where the first match starts and ends, if there is one. */
  function ViewportMatch(s: string): (r: Option<(nat, nat)>)
    ensures r.Some? ==> ViewportMatchAt(s, r.value.0, r.value.1)
  {
    var i := IndexOf(s, ViewportOpen);
    if i == -1 || '>' !in s[i + |ViewportOpen|..] then None
    else
      var t := s[i + |ViewportOpen|..];
      var f := FirstIndexOfChar(t, '>');
      assert s[i + |ViewportOpen|..i + |ViewportOpen| + f] == t[..f];
      Some((i, i + |ViewportOpen| + f + 1))
  }

  /** `s.replace(/<meta name="viewport"[^>]*>/, rep)` */
  function ReplaceViewport(s: string, rep: string): string {
    match ViewportMatch(s)
    case None => s
    case Some((i, e)) => s[..i] + rep + s[e..]
  }

  /** Lines 233-239: the viewport tag becomes the block of meta tags. */
  function UpdateMeta(html: string, title: string): string {
    ReplaceViewport(html, HeadMetaBlock(Description(title)))
  }

  /** What `updateTutorialHTML(filename, title)` writes back for a page. */
  function UpdatedPage(html: string, title: string): string {
    UpdateMeta(AddFooter(WrapMain(AddHeader(AddStyles(AddFontAwesome(html)), title)), title), title)
  }

  // ---------------------------------------------------------------------
  // The method

  /** `updateTutorialHTML`, between reading and writing the file: the page
      goes through the splices in the order the source makes them. */
  method UpdateTutorialHtml(page: string, title: string) returns (html: string)
    ensures html == UpdatedPage(page, title)
  {
    html := page;
    if !Contains(html, "font-awesome") {
      html := ReplaceFirst(html, BootstrapLink, BootstrapLink + "\n    " + FontAwesomeLink);
    }
    assert html == AddFontAwesome(page);
    html := ReplaceFirst(html, "</head>", AdditionalStyles + "\n</head>");
    var headerWithTitle := ReplaceFirst(HeaderHtml, "{TITLE}", title);
    html := ReplaceFirst(html, "<body>", "<body>\n" + headerWithTitle);
    ghost var headed := html;
    assert headed == AddHeader(AddStyles(AddFontAwesome(page)), title);

    var bodyStartIndex := IndexOf(html, "<body>");
    var bodyContent := SubstringFrom(html, bodyStartIndex);
    var firstDivIndex := IndexOf(bodyContent, ContainerMarker);
    if firstDivIndex != -1 {
      var beforeContainer := Substring(bodyContent, 0, firstDivIndex);
      var afterContainer := SubstringFrom(bodyContent, firstDivIndex);
      html := Substring(html, 0, bodyStartIndex) + beforeContainer
              + "<main>\n" + ReplaceFirst(afterContainer, "</div>", "</div>\n</main>");
    }
    WrapMainBySubstrings(headed);
    assert html == WrapMain(headed);

    var navigationButtons := RenderNav(Spaces(4), PageNav(title == NodeTitle));
    html := ReplaceFirst(html, "</body>",
                         navigationButtons + "\n" + FooterHtml + "\n\n" + AdditionalScripts + "\n</body>");
    var description := if title == NodeTitle then NodeDescription else ExpressDescription;
    html := ReplaceViewport(html, HeadMetaBlock(description));
  }

  /** The source's substring arithmetic (a `substring(-1)` when there is
      no `<body>` gives the whole page) finds the same marker as a search
      of the page from the first `<body>` on. */
  lemma WrapMainBySubstrings(html: string)
    ensures var b := IndexOf(html, "<body>");
            var content := SubstringFrom(html, b);
            var k := IndexOf(content, ContainerMarker);
            WrapMain(html)
            == if k == -1 then html
               else Substring(html, 0, b) + Substring(content, 0, k)
                    + "<main>\n" + ReplaceFirst(SubstringFrom(content, k), "</div>", "</div>\n</main>")
  {
    var b := IndexOf(html, "<body>");
    var from: nat := if b < 0 then 0 else b;
    var content := SubstringFrom(html, b);
    BodyContent(html, b, from);
    IndexOfSuffix(html, ContainerMarker, from);
    var k := IndexOf(content, ContainerMarker);
    var K := WrapStart(html);
    assert K == -1 <==> k == -1;
    if k != -1 {
      assert K == from + k;
      SplitAt(html, from, K);
      assert WrapMain(html) == html[..K] + "<main>\n" + ReplaceFirst(html[K..], "</div>", "</div>\n</main>");
    }
  }

  lemma BodyContent(html: string, b: int, from: nat)
    requires b >= -1 && b <= |html| && from == if b < 0 then 0 else b
    ensures SubstringFrom(html, b) == html[from..]
    ensures Substring(html, 0, b) == html[..from]
  {
  }

  lemma SplitAt(html: string, from: nat, K: nat)
    requires from <= K <= |html|
    ensures Substring(html, 0, from) + Substring(html[from..], 0, K - from) == html[..K]
    ensures SubstringFrom(html[from..], K - from) == html[K..]
  {
    assert html[..from] + html[from..K] == html[..K];
  }

  // ---------------------------------------------------------------------
  // Font Awesome and the extra styles

  lemma FontAwesomeLinkNamed()
    ensures Contains(FontAwesomeLink, "font-awesome")
  {
    ContainsSelf("font-awesome");
    ContainsInMiddle("<link href=\"https://cdnjs.cloudflare.com/ajax/libs/", "font-awesome",
                     "/6.4.0/css/all.min.css\" rel=\"stylesheet\">", "font-awesome");
  }

  /** Replacing the first `anchor` by a text that holds `word` gives a
      text that holds `word`. */
  lemma InsertionSplit(html: string, anchor: string, rep: string, word: string) returns (pre: string, suf: string)
    requires Contains(html, anchor) && |anchor| > 0 && Contains(rep, word)
    ensures html == pre + anchor + suf && !Contains(pre, anchor)
    ensures ReplaceFirst(html, anchor, rep) == pre + rep + suf
    ensures Contains(ReplaceFirst(html, anchor, rep), word)
  {
    pre, suf := ReplaceFirstSplit(html, anchor, rep);
    ContainsInMiddle(pre, rep, suf, word);
  }

  lemma FontAwesomeInsertNamed()
    ensures Contains(BootstrapLink + "\n    " + FontAwesomeLink, "font-awesome")
  {
    FontAwesomeLinkNamed();
    ContainsRight(BootstrapLink + "\n    ", FontAwesomeLink, "font-awesome");
  }

  /** Lines 178-184: a page without `font-awesome` gets the link right
      after its first Bootstrap link, and only there; a page that already
      mentions it, or has no Bootstrap link, is left as it is. */
  lemma FontAwesomePlacement(html: string)
    ensures Contains(html, "font-awesome") || !Contains(html, BootstrapLink) ==> AddFontAwesome(html) == html
    ensures !Contains(html, "font-awesome") && Contains(html, BootstrapLink) ==>
              exists pre, suf :: html == pre + BootstrapLink + suf && !Contains(pre, BootstrapLink)
                && AddFontAwesome(html) == pre + (BootstrapLink + "\n    " + FontAwesomeLink) + suf
                && Contains(AddFontAwesome(html), "font-awesome")
  {
    var rep := BootstrapLink + "\n    " + FontAwesomeLink;
    if !Contains(html, "font-awesome") {
      if Contains(html, BootstrapLink) {
        FontAwesomeInsertNamed();
        var pre, suf := InsertionSplit(html, BootstrapLink, rep, "font-awesome");
      } else {
        ReplaceFirstAbsent(html, BootstrapLink, rep);
      }
    }
  }

  /** A second run adds no second Font Awesome link. */
  lemma FontAwesomeIdempotent(html: string)
    ensures AddFontAwesome(AddFontAwesome(html)) == AddFontAwesome(html)
  {
    FontAwesomePlacement(html);
  }

  /** Line 187: the styles go in right before the first `</head>` whatever
      the page already holds, so the page grows by the styles and a line
      break and keeps its `</head>`; a page without `</head>` is left as it
      is. */
  lemma StylesPlacement(html: string)
    ensures !Contains(html, "</head>") ==> AddStyles(html) == html
    ensures Contains(html, "</head>") ==>
              exists pre, suf :: html == pre + "</head>" + suf && !Contains(pre, "</head>")
                && AddStyles(html) == pre + (AdditionalStyles + "\n</head>") + suf
    ensures Contains(html, "</head>") ==>
              |AddStyles(html)| == |html| + |AdditionalStyles| + 1 && Contains(AddStyles(html), "</head>")
  {
    var rep := AdditionalStyles + "\n</head>";
    if Contains(html, "</head>") {
      ContainsSelf("</head>");
      ContainsRight(AdditionalStyles + "\n", "</head>", "</head>");
      assert rep == AdditionalStyles + "\n" + "</head>";
      var pre, suf := InsertionSplit(html, "</head>", rep, "</head>");
    }
  }

  /** A second run inserts a second copy of the styles. */
  lemma StylesNotIdempotent(html: string)
    requires Contains(html, "</head>")
    ensures |AddStyles(AddStyles(html))| == |html| + 2 * (|AdditionalStyles| + 1)
    ensures AddStyles(AddStyles(html)) != AddStyles(html)
  {
    StylesPlacement(html);
    StylesPlacement(AddStyles(html));
  }

  // ---------------------------------------------------------------------
  // The header

  /** Line 190: `{TITLE}` is the header's only hole, and the title fills it
      as the current item of the breadcrumb. */
  lemma HeaderWithTitleIs(title: string)
    ensures HeaderWithTitle(title) == HeaderLead + BreadcrumbBody(title)
  {
    BreadcrumbBraceFree();
    FillHole(HeaderLead, BreadcrumbHead, "{TITLE}", BreadcrumbTail, title);
  }

  /** A hole whose first character occurs nowhere before it is the first
      occurrence, and replacing it fills exactly that place. */
  lemma FillHole(lead: string, head: string, hole: string, tail: string, v: string)
    requires |hole| > 0 && hole[0] !in lead && hole[0] !in head
    ensures ReplaceFirst(lead + (head + hole + tail), hole, v) == lead + (head + v + tail)
  {
    assert lead + (head + hole + tail) == (lead + head) + hole + tail;
    IndexOfAfterFreePrefix(lead + head, hole, tail);
    ReplaceFirstAt(lead + head, hole, tail, v);
  }

  /** Line 191: the header with the title goes right after the first
      `<body>`; everything before and after stays; no `<body>`, no change. */
  lemma HeaderPlacement(html: string, title: string)
    ensures !Contains(html, "<body>") ==> AddHeader(html, title) == html
    ensures Contains(html, "<body>") ==>
              AddHeader(html, title)
              == html[..IndexOf(html, "<body>")] + "<body>\n" + HeaderLead + BreadcrumbBody(title)
                 + html[IndexOf(html, "<body>") + 6..]
  {
    HeaderWithTitleIs(title);
    if Contains(html, "<body>") {
      var i := IndexOf(html, "<body>");
      var rep := "<body>\n" + HeaderWithTitle(title);
      var pre, suf := ReplaceFirstSplit(html, "<body>", rep);
      BodySplitAt(html, pre, suf, i);
    }
  }

  lemma BodySplitAt(html: string, pre: string, suf: string, i: int)
    requires html == pre + "<body>" + suf && i == |pre|
    ensures html[..i] == pre && html[i + 6..] == suf
  {
  }

  // ---------------------------------------------------------------------
  // The `<main>` wrap

  /** When the first `<body>` ends where `lead` starts and `lead` holds no
      marker, `<main>` opens at the marker right after `lead`. */
  lemma WrapAfterLead(h: string, pre: string, lead: string, rest: string)
    requires h == pre + lead + ContainerMarker + rest
    requires IndexOf(h, "<body>") == |pre|
    requires !Contains(lead, ContainerMarker) && Separated(lead, ContainerMarker + rest, ContainerMarker)
    ensures WrapMain(h) == pre + lead + "<main>\n" + ReplaceFirst(ContainerMarker + rest, "</div>", "</div>\n</main>")
  {
    StartAfterLead(h, pre, lead, rest);
    WrapAt(h, |pre| + |lead|, pre + lead, rest);
  }

  lemma WrapAt(h: string, k: nat, before: string, rest: string)
    requires WrapStart(h) == k && k <= |h| && h[..k] == before && h[k..] == ContainerMarker + rest
    ensures WrapMain(h) == before + "<main>\n" + ReplaceFirst(ContainerMarker + rest, "</div>", "</div>\n</main>")
  {
  }

  lemma StartAfterLead(h: string, pre: string, lead: string, rest: string)
    requires h == pre + lead + ContainerMarker + rest
    requires IndexOf(h, "<body>") == |pre|
    requires !Contains(lead, ContainerMarker) && Separated(lead, ContainerMarker + rest, ContainerMarker)
    ensures WrapStart(h) == |pre| + |lead|
    ensures h[..|pre| + |lead|] == pre + lead
    ensures h[|pre| + |lead|..] == ContainerMarker + rest
  {
    SplitParts(h, pre, lead, ContainerMarker, rest);
    FoundAfter(h, |pre|, lead, ContainerMarker, rest);
  }

  lemma SplitParts(h: string, pre: string, lead: string, m: string, rest: string)
    requires h == pre + lead + m + rest
    ensures h[|pre|..] == lead + m + rest
    ensures h[..|pre| + |lead|] == pre + lead
    ensures h[|pre| + |lead|..] == m + rest
  {
    assert h == (pre + lead) + (m + rest);
  }

  /** The search from `from` finds `m` right after `lead`. */
  lemma FoundAfter(h: string, from: nat, lead: string, m: string, rest: string)
    requires from <= |h| && h[from..] == lead + m + rest
    requires |m| > 0 && !Contains(lead, m) && Separated(lead, m + rest, m)
    ensures IndexOfFrom(h, m, from) == from + |lead|
  {
    IndexOfSuffix(h, m, from);
    IndexOfAfterSeparated(lead, m, rest);
  }

  /** The first `</div>` after the breadcrumb's marker is the end of the
      breadcrumb's container, provided the title holds none. */
  lemma CloseAfterBreadcrumb(title: string, after: string)
    requires !Contains(title, "</div>")
    ensures ReplaceFirst(BreadcrumbBody(title) + after, "</div>", "</div>\n</main>")
         == BreadcrumbHead + title + ListClose + "</div>\n</main>" + ("\n    </nav>" + after)
  {
    var pat := "</div>";
    var x := BreadcrumbHead + title + ListClose;
    BreadcrumbHeadNoDivEnd();
    BreadcrumbContainer();
    ListCloseEnds();
    NotContainsByChar(ListClose, pat, 'd');
    ContainsConcat(BreadcrumbHead, title, pat);
    ContainsConcat(BreadcrumbHead + title, ListClose, pat);
    assert x[|x| - 1] == ' ';
    assert BreadcrumbBody(title) + after == x + pat + ("\n    </nav>" + after);
    IndexOfAfterSeparated(x, pat, "\n    </nav>" + after);
    ReplaceFirstAt(x, pat, "\n    </nav>" + after, "</div>\n</main>");
  }

  /** The header lead and the line break before it hold no marker. */
  lemma LeadHasNoMarker()
    ensures !Contains("<body>\n" + HeaderLead, ContainerMarker)
  {
    MarkerNoSlash();
    NotContainsByChar("<body>\n", ContainerMarker, '"');
    ContainsConcat("<body>\n", HeaderLead, ContainerMarker);
  }

  /** Lines 194-204 after line 191: the header just inserted holds the
      first container marker after `<body>`, so `<main>` opens on the
      breadcrumb's container and closes after that container's end, and
      the page's own content is not wrapped. */
  lemma WrapLandsOnBreadcrumb(html: string, title: string)
    requires Contains(html, "<body>") && !Contains(title, "</div>")
    ensures WrapMain(AddHeader(html, title))
         == html[..IndexOf(html, "<body>")] + ("<body>\n" + HeaderLead) + "<main>\n"
            + (BreadcrumbHead + title + ListClose + "</div>\n</main>" + ("\n    </nav>" + html[IndexOf(html, "<body>") + 6..]))
  {
    var i := IndexOf(html, "<body>");
    var pre, after := html[..i], html[i + 6..];
    var lead := "<body>\n" + HeaderLead;
    var rest := HeadedShape(html, title);
    var h := AddHeader(html, title);
    HeadedBodyKept(html, title);
    assert |pre| == i;
    LeadHasNoMarker();
    MarkerSeparated(lead, rest);
    WrapAfterLead(h, pre, lead, rest);
    CloseAfterBreadcrumb(title, after);
    var r := ReplaceFirst(ContainerMarker + rest, "</div>", "</div>\n</main>");
    assert r == BreadcrumbHead + title + ListClose + "</div>\n</main>" + ("\n    </nav>" + after);
  }

  /** The marker's first character occurs nowhere else in it, so no
      marker straddles the seam in front of it. */
  lemma MarkerSeparated(lead: string, rest: string)
    ensures Separated(lead, ContainerMarker + rest, ContainerMarker)
  {
    assert (ContainerMarker + rest)[0] == ContainerMarker[0] == '<';
    assert '<' !in ContainerMarker[1..];
  }

  /** After the header step the page is its part before `<body>`, the
      header lead, the breadcrumb's marker and the rest, and its first
      `<body>` has not moved. */
  lemma HeadedShape(html: string, title: string) returns (rest: string)
    requires Contains(html, "<body>")
    ensures AddHeader(html, title)
         == html[..IndexOf(html, "<body>")] + ("<body>\n" + HeaderLead) + ContainerMarker + rest
    ensures ContainerMarker + rest == BreadcrumbBody(title) + html[IndexOf(html, "<body>") + 6..]
  {
    var i := IndexOf(html, "<body>");
    var pre, after := html[..i], html[i + 6..];
    var body := BreadcrumbBody(title);
    HeaderPlacement(html, title);
    var h := AddHeader(html, title);
    BreadcrumbContainer();
    StartsWithExtend(BreadcrumbHead, title + BreadcrumbTail, ContainerMarker);
    assert BreadcrumbHead + (title + BreadcrumbTail) == body;
    rest := body[|ContainerMarker|..] + after;
    PrefixRest(body, ContainerMarker, after);
    Regroup(pre, "<body>\n", HeaderLead, body, after, ContainerMarker, rest);
  }

  /** The header step leaves the first `<body>` where it was. */
  lemma HeadedBodyKept(html: string, title: string)
    requires Contains(html, "<body>")
    ensures IndexOf(AddHeader(html, title), "<body>") == IndexOf(html, "<body>")
  {
    var i := IndexOf(html, "<body>");
    HeaderPlacement(html, title);
    ConcatRegroup(html[..i], "<body>\n", HeaderLead, BreadcrumbBody(title), html[i + 6..]);
    AnchorKept(html, "<body>", AddHeader(html, title), "<body>\n", HeaderLead + BreadcrumbBody(title) + html[i + 6..]);
  }

  lemma PrefixRest(x: string, p: string, y: string)
    requires StartsWith(x, p)
    ensures p + (x[|p|..] + y) == x + y
  {
    assert x == p + x[|p|..];
  }

  lemma Regroup(pre: string, b: string, c: string, body: string, after: string, m: string, rest: string)
    requires m + rest == body + after
    ensures pre + b + c + body + after == pre + (b + c) + m + rest
  {
    calc {
      pre + b + c + body + after;
      pre + (b + c) + (body + after);
      pre + (b + c) + (m + rest);
      pre + (b + c) + m + rest;
    }
  }

  /** Replacing the first `pat` by a text that starts with `pat` leaves
      that `pat` the first. */
  lemma AnchorKept(s: string, pat: string, t: string, rep: string, tail: string)
    requires IndexOf(s, pat) != -1 && StartsWith(rep, pat) && t == s[..IndexOf(s, pat)] + rep + tail
    ensures IndexOf(t, pat) == IndexOf(s, pat)
  {
    var i := IndexOf(s, pat);
    assert s[..i + |pat|] == s[..i] + pat;
    assert t[..i + |pat|] == s[..i] + rep[..|pat|];
    IndexOfKeptPrefix(s, t, pat);
  }

  /** Lines 194-204 in general: with no marker where the search looks
      the page is unchanged; otherwise `<main>` opens right before the
      marker and closes right after the first `</div>` from there on, and
      stays unclosed when no `</div>` follows. */
  lemma WrapPlacement(html: string)
    ensures WrapStart(html) == -1 ==> WrapMain(html) == html
    ensures WrapStart(html) != -1 && !Contains(html[WrapStart(html)..], "</div>") ==>
              WrapMain(html) == html[..WrapStart(html)] + "<main>\n" + html[WrapStart(html)..]
    ensures WrapStart(html) != -1 && Contains(html[WrapStart(html)..], "</div>") ==>
              exists mid, suf :: html == html[..WrapStart(html)] + mid + "</div>" + suf
                && StartsWith(mid + "</div>" + suf, ContainerMarker) && !Contains(mid, "</div>")
                && WrapMain(html) == html[..WrapStart(html)] + "<main>\n" + mid + "</div>\n</main>" + suf
  {
    var k := WrapStart(html);
    if k != -1 {
      var t := html[k..];
      if Contains(t, "</div>") {
        var mid, suf := WrapClosed(html, k);
      } else {
        ReplaceFirstAbsent(t, "</div>", "</div>\n</main>");
      }
    }
  }

  lemma WrapClosed(html: string, k: nat) returns (mid: string, suf: string)
    requires k == WrapStart(html) && Contains(html[k..], "</div>")
    ensures html == html[..k] + mid + "</div>" + suf
    ensures StartsWith(mid + "</div>" + suf, ContainerMarker) && !Contains(mid, "</div>")
    ensures WrapMain(html) == html[..k] + "<main>\n" + mid + "</div>\n</main>" + suf
  {
    var t := html[k..];
    mid, suf := ReplaceFirstSplit(t, "</div>", "</div>\n</main>");
    assert html == html[..k] + t;
    MarkerStartsSuffix(html, k);
    WrapMainAt(html, k);
    Regroup3(html[..k] + "<main>\n", mid, "</div>\n</main>", suf);
  }

  lemma WrapMainAt(html: string, k: int)
    requires k == WrapStart(html) && k != -1
    ensures 0 <= k <= |html|
    ensures WrapMain(html) == html[..k] + "<main>\n" + ReplaceFirst(html[k..], "</div>", "</div>\n</main>")
  {
  }

  lemma Regroup3(p: string, a: string, b: string, c: string)
    ensures p + (a + b + c) == p + a + b + c
  {
  }

  lemma MarkerStartsSuffix(html: string, k: nat)
    requires OccursAt(html, ContainerMarker, k)
    ensures StartsWith(html[k..], ContainerMarker)
  {
    assert html[k..][..|ContainerMarker|] == html[k..k + |ContainerMarker|];
  }

  // ---------------------------------------------------------------------
  // Buttons, footer and scripts

  /** The navigation block opens with the indented button for the first
      link. */
  lemma RenderNavStart(indent: string, links: seq<NavLink>)
    requires links != []
    ensures StartsWith(RenderNav(indent, links), NavOpen(indent) + (indent + "    ") + AnchorTo(links[0].href))
  {
    var inner := indent + "    ";
    var first := NavButton(inner, links[0]);
    StartsWithAppend(inner + AnchorTo(links[0].href), ButtonRest(inner, links[0].caption));
    StartsWithExtend(first, NavButtons(inner, links[1..]), inner + AnchorTo(links[0].href));
    assert NavButtons(inner, links) == first + NavButtons(inner, links[1..]);
    StartsWithPrepend(NavOpen(indent), NavButtons(inner, links), inner + AnchorTo(links[0].href));
    StartsWithExtend(NavOpen(indent) + NavButtons(inner, links), indent + "</div>",
                     NavOpen(indent) + (inner + AnchorTo(links[0].href)));
  }

  /** Lines 207-223: the Node.js page's buttons lead home and to the
      Express.js page, every other title's buttons to the Node.js page and
      home, and the two blocks differ, so the title picks the Node.js block
      exactly when it equals the Node.js page's title. */
  lemma NavigationChoice(title: string)
    ensures Contains(NavigationButtons(title), AnchorTo(HomePage))
    ensures Contains(NavigationButtons(title), AnchorTo(OtherPage(title == NodeTitle)))
    ensures NavigationButtons(title) == NavigationButtons(NodeTitle) <==> title == NodeTitle
    ensures Description(title) == NodeDescription <==> title == NodeTitle
  {
    var node := title == NodeTitle;
    var links := PageNav(node);
    if node {
      RenderNavLinksEach(Spaces(4), links, 0);
      RenderNavLinksEach(Spaces(4), links, 1);
    } else {
      RenderNavLinksEach(Spaces(4), links, 1);
      RenderNavLinksEach(Spaces(4), links, 0);
      NavigationVariantsDiffer();
      DescriptionsDiffer();
    }
  }

  lemma NavigationVariantsDiffer()
    ensures RenderNav(Spaces(4), PageNav(true)) != RenderNav(Spaces(4), PageNav(false))
  {
    var x := NavOpen(Spaces(4)) + (Spaces(4) + "    ");
    var a := x + AnchorTo(HomePage);
    var b := x + AnchorTo(NodePage);
    RenderNavStart(Spaces(4), PageNav(true));
    RenderNavStart(Spaces(4), PageNav(false));
    assert a[|x| + 9] == 'i';
    assert b[|x| + 9] == 'n';
  }

  /** Line 226: buttons, footer and scripts go in right before the first
      `</body>`, everything else stays; no `</body>`, no change. */
  lemma FooterPlacement(html: string, title: string)
    ensures !Contains(html, "</body>") ==> AddFooter(html, title) == html
    ensures Contains(html, "</body>") ==>
              exists pre, suf :: html == pre + "</body>" + suf && !Contains(pre, "</body>")
                && AddFooter(html, title)
                   == pre + (NavigationButtons(title) + "\n" + FooterHtml + "\n\n" + AdditionalScripts + "\n</body>") + suf
  {
    var rep := NavigationButtons(title) + "\n" + FooterHtml + "\n\n" + AdditionalScripts + "\n</body>";
    if Contains(html, "</body>") {
      var pre, suf := ReplaceFirstSplit(html, "</body>", rep);
    }
  }

  // ---------------------------------------------------------------------
  // The viewport tag

  /** The match found is the leftmost one, and at its start it is the
      only one; no match found means there is none at all. */
  lemma ViewportMatchLeftmost(s: string)
    ensures forall j, f :: ViewportMatchAt(s, j, f) ==>
              ViewportMatch(s).Some? && ViewportMatch(s).value.0 <= j
              && (j == ViewportMatch(s).value.0 ==> f == ViewportMatch(s).value.1)
  {
    forall j, f | ViewportMatchAt(s, j, f)
      ensures ViewportMatch(s).Some? && ViewportMatch(s).value.0 <= j
      ensures j == ViewportMatch(s).value.0 ==> f == ViewportMatch(s).value.1
    {
      ViewportMatchFrom(s, j, f);
    }
  }

  lemma ViewportMatchFrom(s: string, j: int, f: int)
    requires ViewportMatchAt(s, j, f)
    ensures ViewportMatch(s).Some? && ViewportMatch(s).value.0 <= j
    ensures j == ViewportMatch(s).value.0 ==> f == ViewportMatch(s).value.1
  {
    assert Contains(s, ViewportOpen);
    var i := IndexOf(s, ViewportOpen);
    var n := |ViewportOpen|;
    assert i <= j;
    var t := s[i + n..];
    assert t[f - 1 - (i + n)] == '>';
  }

  /** Lines 233-239: only the leftmost viewport tag is replaced, and the
      text around it stays; a page without one is unchanged. */
  lemma ViewportReplacedOnce(s: string, rep: string)
    ensures ViewportMatch(s).None? ==> ReplaceViewport(s, rep) == s
    ensures ViewportMatch(s).Some? ==>
              exists i, e :: ViewportMatchAt(s, i, e)
                && (forall j, f :: ViewportMatchAt(s, j, f) ==> i <= j && (j == i ==> f == e))
                && ReplaceViewport(s, rep) == s[..i] + rep + s[e..]
  {
    ViewportMatchLeftmost(s);
    if ViewportMatch(s).Some? {
      var i, e := ViewportMatch(s).value.0, ViewportMatch(s).value.1;
      assert ViewportMatchAt(s, i, e);
    }
  }

  /** The replacement starts with a viewport tag of its own, so a second
      run finds it and inserts the whole block once more, behind the
      first: the description, keywords and author tags appear twice. */
  lemma ViewportRerun(s: string, d: string)
    requires ViewportMatch(s).Some?
    ensures ReplaceViewport(ReplaceViewport(s, HeadMetaBlock(d)), HeadMetaBlock(d))
         == s[..ViewportMatch(s).value.0] + HeadMetaBlock(d) + HeadMetaBlock(d)[|ViewportMeta|..]
            + s[ViewportMatch(s).value.1..]
    ensures Contains(HeadMetaBlock(d)[|ViewportMeta|..], DescriptionMeta(d))
  {
    Rerun(s, HeadMetaBlock(d));
    MetaBlockRest(d);
  }

  lemma Rerun(s: string, b: string)
    requires ViewportMatch(s).Some? && StartsWith(b, ViewportMeta)
    ensures ReplaceViewport(ReplaceViewport(s, b), b)
         == s[..ViewportMatch(s).value.0] + b + b[|ViewportMeta|..] + s[ViewportMatch(s).value.1..]
  {
    var i, e := ViewportMatch(s).value.0, ViewportMatch(s).value.1;
    var v := |ViewportMeta|;
    var s1 := s[..i] + b + s[e..];
    assert ReplaceViewport(s, b) == s1;
    RerunMatch(s, b, i, e);
    assert ReplaceViewport(s1, b) == s1[..i] + b + s1[i + v..];
    MiddleParts(s[..i], b, s[e..], v);
  }

  lemma RerunMatch(s: string, b: string, i: nat, e: nat)
    requires ViewportMatch(s) == Some((i, e)) && StartsWith(b, ViewportMeta)
    ensures ViewportMatch(s[..i] + b + s[e..]) == Some((i, i + |ViewportMeta|))
  {
    var s1 := s[..i] + b + s[e..];
    var v := |ViewportMeta|;
    ViewportMetaShape();
    StartsWithTrans(b, ViewportMeta, ViewportOpen);
    AnchorKept(s, ViewportOpen, s1, b, s[e..]);
    MiddleSlice(s[..i], b, s[e..], v);
    TagAt(s1, i);
    ViewportMatchFrom(s1, i, i + v);
  }

  /** A viewport tag written at `i` is a match there. */
  lemma TagAt(s: string, i: nat)
    requires i + |ViewportMeta| <= |s| && s[i..i + |ViewportMeta|] == ViewportMeta
    ensures ViewportMatchAt(s, i, i + |ViewportMeta|)
  {
    var n, v := |ViewportOpen|, |ViewportMeta|;
    ViewportMetaShape();
    SliceOfSlice(s, i, i + v, 0, n);
    SliceOfSlice(s, i, i + v, n, v - 1);
    assert s[i + v - 1] == s[i..i + v][v - 1];
  }

  lemma SliceOfSlice(s: string, i: nat, j: nat, a: nat, b: nat)
    requires i <= j <= |s| && a <= b <= j - i
    ensures s[i + a..i + b] == s[i..j][a..b]
  {
    var t := s[i..j];
    assert forall k :: 0 <= k < b - a ==> s[i + a..i + b][k] == s[i + a + k] == t[a + k] == t[a..b][k];
  }

  lemma StartsWithTrans(a: string, b: string, c: string)
    requires StartsWith(a, b) && StartsWith(b, c)
    ensures StartsWith(a, c)
  {
    assert a[..|c|] == a[..|b|][..|c|];
  }

  lemma MiddleParts(pre: string, b: string, post: string, k: nat)
    requires k <= |b|
    ensures (pre + b + post)[..|pre|] == pre
    ensures (pre + b + post)[|pre| + k..] == b[k..] + post
  {
  }

  lemma MiddleSlice(pre: string, b: string, post: string, k: nat)
    requires k <= |b|
    ensures (pre + b + post)[|pre|..|pre| + k] == b[..k]
  {
  }

  lemma MetaBlockRest(d: string)
    ensures Contains(HeadMetaBlock(d)[|ViewportMeta|..], DescriptionMeta(d))
  {
    var rest := "\n    " + KeywordsMeta + "\n    " + AuthorMeta;
    var b := (ViewportMeta + "\n    ") + DescriptionMeta(d) + rest;
    assert HeadMetaBlock(d) == b;
    assert b[|ViewportMeta|..] == "\n    " + DescriptionMeta(d) + rest;
    ContainsSelf(DescriptionMeta(d));
    ContainsInMiddle("\n    ", DescriptionMeta(d), rest, DescriptionMeta(d));
  }
}
