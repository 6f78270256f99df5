# Tutorial site generator: converters and shell injector, modelled in Dafny

The site turns two Markdown tutorials (Node.js and Express.js) into HTML pages. There are two generations of converter and a script that patches pages already generated. This project models:

- **The improved converter** (`convert-to-html-improved.js`, module `ImprovedConverter`):
  - the five-character HTML escaper (`HtmlEscape`), which the source writes out twice with the same body;
  - the heading-id slug (`HeadingSlug`);
  - the renderer overrides for headings, code blocks, inline code, tables, lists and links;
  - the page template `createHTMLTemplate`, as fixed text around a title hole and a content hole, with the page-kind flag choosing the description, the breadcrumb label and the navigation buttons;
  - the `nodejs-tutorial` file-name test.
- **The original converter** (`convert-to-html.js`, module `OriginalConverter`). It has its own heading, code and table renderers and its own template. Each is compared with the improved one:
  - heading ids agree on text without `<`;
  - the original takes the whole info string as the language where the improved one takes the first word;
  - the original writes code verbatim where the improved one escapes it once;
  - the original always writes a `<tbody>`.
- **The shell injector** (`update-tutorials.js`, module `TutorialUpdater`).
  - The method `UpdateTutorialHtml` follows `updateTutorialHTML` statement by statement on a local `html` that it reassigns. Its `ensures` ties the result to `UpdatedPage`, the composition of one step function per splice.
  - The lemmas state each splice's placement: where the new text goes, that everything else is kept, and that a missing anchor leaves the page unchanged.
  - Further lemmas cover what happens when the steps are combined, or run a second time:
    - the Font Awesome step is idempotent;
    - the styles step is not idempotent;
    - the viewport step duplicates the description, keywords and author tags on a second run;
    - `<main>` lands on the breadcrumb's container that the header step just inserted, not on the page's content.

Supporting modules:

- `JsString` models the JavaScript string primitives the sources use: `includes`, `startsWith`, `indexOf`, `substring` with its clamping of negative and oversized bounds, `replace` with a string pattern (first occurrence only), and `${n}` for a non-negative integer.
- `HtmlTag` reads back a start tag (`Parse`) and proves that it recovers exactly what `Render` wrote (`ParseRender`). This is how each renderer's choice of element and attributes is stated: "the output parses as this tag with these attributes, followed by this text".
- `SiteMarkup` holds the markup that the improved template and the shell injector share: titles, descriptions, the meta block, the breadcrumb and the navigation buttons.

Two behaviours of the shell injector's `<main>` wrap are worth knowing:

- **How far `<main>` reaches.** `</main>` closes after the first `</div>` that follows the container marker (update-tutorials.js:202-203), not at the end of the page.
- **Which container gets wrapped.** The inserted header carries the same marker (update-tutorials.js:22), so the wrap encloses the breadcrumb's container, not the page content (`TutorialUpdater.WrapLandsOnBreadcrumb`).

## Model

| member | source | states |
|---|---|---|
| JsString.IndexOf | update-tutorials.js:194 | -1 exactly when the pattern does not occur; otherwise the leftmost index where it occurs |
| JsString.Substring | update-tutorials.js:199 | within bounds it is the slice; bounds that cover the string give the whole string; the result always occurs in the string |
| JsString.SubstringFrom | update-tutorials.js:195 | `substring(start)`: the suffix from `start`, and the whole string for a negative start (the -1 of a failed `indexOf`) |
| JsString.SubstringSplit | update-tutorials.js:199-200 | cutting at any index, even a negative or oversized one, and rejoining the two pieces gives the string back |
| JsString.ReplaceFirst | update-tutorials.js:187 | a string without the pattern comes back unchanged; otherwise only the leftmost occurrence is replaced and the rest is kept |
| JsString.ReplaceFirstAbsent | update-tutorials.js:191 | a splice whose anchor is missing leaves the page unchanged |
| JsString.ReplaceFirstSplit | update-tutorials.js:226 | a found anchor splits the page as `pre + pat + suf`, where `pre` ends at `indexOf` and holds no anchor; the splice gives `pre + rep + suf` |
| JsString.ReplaceFirstLength | update-tutorials.js:187 | a splice that finds its anchor changes the length by `|rep| - |pat|` |
| JsString.DecimalString | convert-to-html-improved.js:618 | `${level}` is a non-empty run of digits with no leading zero |
| JsString.ParseDecimalString | convert-to-html-improved.js:664 | the printed number reads back as the number |
| JsString.DecimalStringInjective | convert-to-html-improved.js:618 | different levels or start numbers print differently |
| HtmlEscape.EscapeHtml | convert-to-html-improved.js:627-637 | the five chained global replacements, `&` first; what they give is stated by `EscapeHtmlIsCharwise`, `EscapeHtmlRoundTrip` and `EscapedHasNoMarkup` |
| HtmlEscape.ReplaceAllChar | convert-to-html-improved.js:632-636 | a global replacement of a character absent from the text changes nothing, and one whose replacement lacks the character removes it |
| HtmlEscape.EscapeHtmlConcat | convert-to-html-improved.js:627-637 | escaping a concatenation escapes each part |
| HtmlEscape.EscapeHtmlChar | convert-to-html-improved.js:632-636 | one character escapes to its entity (`&amp;`, `&lt;`, `&gt;`, `&quot;`, `&#039;`) or to itself |
| HtmlEscape.EscapeHtmlIsCharwise | convert-to-html-improved.js:627-637 | the five chained replacements, `&` first, escape every character exactly once: the entities inserted early are never escaped again |
| HtmlEscape.EscapedHasNoMarkup | convert-to-html-improved.js:627-637 | escaped text holds no `<`, `>`, `"` or `'` |
| HtmlEscape.EscapeHtmlPlainText | convert-to-html-improved.js:588-598 | text without any of the five special characters comes back unchanged |
| HtmlEscape.EscapeHtmlRoundTrip | convert-to-html-improved.js:627-637 | unescaping the five entities gives the original text back |
| HtmlEscape.EscapeHtmlInjective | convert-to-html-improved.js:627-637 | two different texts never escape to the same output |
| HtmlEscape.EscapeEachLength | convert-to-html-improved.js:627-637 | escaping never shortens; the length is kept exactly for plain text, and otherwise the output holds an `&` |
| HtmlEscape.EscapeHtmlIdempotentIff | convert-to-html-improved.js:627-637 | escaping twice equals escaping once exactly when the text is plain; `&lt;` becomes `&amp;lt;` |
| HeadingSlug.ToLowerAscii | convert-to-html-improved.js:615 | same length, no upper-case ASCII letter left, and each position keeps whether it is an allowed character |
| HeadingSlug.StripTags | convert-to-html-improved.js:614 | never longer; unchanged without `<`; leaves no `<` followed later by `>`; only characters of the input |
| HeadingSlug.StripTagsKeepsText | convert-to-html-improved.js:614 | text before the first `<` is kept verbatim and the rest is stripped on its own |
| HeadingSlug.StripTagsKeepsUnclosed | convert-to-html-improved.js:614 | text without `>` is kept whole, so a `<` with no `>` after it stays; with `StripTagsKeepsText` and `StripTagsRemovesTag` this fixes the result on every input |
| HeadingSlug.StripTagsRemovesTag | convert-to-html-improved.js:614 | a tag in front of the text is removed whole |
| HeadingSlug.TrimLeadingHyphens | convert-to-html-improved.js:617 | a suffix of the input that does not start with `-`; every character removed is a `-` |
| HeadingSlug.TrimTrailingHyphens | convert-to-html-improved.js:617 | a prefix of the input that does not end with `-`; every character removed is a `-` |
| HeadingSlug.CollapseRuns | convert-to-html-improved.js:616 | the `/[^\w...]+/g` replacement, written as a scan; what it does is stated by `CollapseRunsWord` and `CollapseRunsAtRun` |
| HeadingSlug.CollapseRunsWord | convert-to-html-improved.js:616 | allowed characters are copied one for one |
| HeadingSlug.CollapseRunsConcat | convert-to-html-improved.js:616 | text that ends with an allowed character is collapsed independently of what follows it |
| HeadingSlug.CollapseRunsAtRun | convert-to-html-improved.js:616 | a maximal run of disallowed characters, between allowed characters or the ends of the text, becomes exactly one `-` in its place |
| HeadingSlug.CollapseRunsShape | convert-to-html-improved.js:616 | after collapsing, only allowed lower-case characters and single hyphens remain |
| HeadingSlug.Slugify | convert-to-html-improved.js:615-617 | lower-case, collapse, trim; what it gives is stated by `SlugifyIsSlug`, `SlugifyKeepsAllowed`, `SlugifyJoinsWords` and `SlugifyIdempotent` |
| HeadingSlug.SlugifyJoinsWords | convert-to-html-improved.js:615-617 | two words separated by any run of disallowed characters slug to the lower-cased words joined by one `-` |
| HeadingSlug.HeadingId | convert-to-html-improved.js:614-617 | tags stripped, then slugged; stated by `HeadingIdIsSlug`, `HeadingIdIdempotent` and `HeadingIdsAgreeWithoutTags` |
| HeadingSlug.OriginalHeadingId | convert-to-html.js:166-168 | slugged from the raw text; stated by `OriginalHeadingIdIsSlug` |
| HeadingSlug.SlugifyIsSlug | convert-to-html-improved.js:615-617 | a slug uses only `[a-z0-9_]`, hiragana, katakana, CJK ideographs and `-`, never has `--`, and never starts or ends with `-` |
| HeadingSlug.HeadingIdIsSlug | convert-to-html-improved.js:614-617 | the improved heading id is such a slug |
| HeadingSlug.OriginalHeadingIdIsSlug | convert-to-html.js:166-168 | the original heading id, slugged from the raw text, is such a slug too |
| HeadingSlug.SlugIsAttributeSafe | convert-to-html-improved.js:618 | a slug holds no `"`, `<` or `>`, so it cannot break out of `id="..."` |
| HeadingSlug.SlugifyKeepsAllowed | convert-to-html-improved.js:615-617 | the slug keeps every allowed character of the lower-cased text, in order, and drops only the others |
| HeadingSlug.CollapseRunsOfSlugShape | convert-to-html-improved.js:616 | collapsing runs changes nothing in text that already has the slug shape |
| HeadingSlug.SlugifyIdempotent | convert-to-html-improved.js:615-617 | a slug is its own slug |
| HeadingSlug.HeadingIdIdempotent | convert-to-html-improved.js:614-617 | a heading id is its own heading id |
| HeadingSlug.HeadingIdsAgreeWithoutTags | convert-to-html.js:166-168 | on text without `<` the two converters produce the same id |
| ImprovedConverter.Heading | convert-to-html-improved.js:611-619 | the heading renderer; its tag, id and text are stated by `HeadingParsesBack` |
| ImprovedConverter.HeadingParsesBack | convert-to-html-improved.js:611-619 | a heading reads back as an `h<level>` tag whose only attribute is the slug id, then the text verbatim and the matching end tag; the tag name gives back the level |
| ImprovedConverter.LeadingToken | convert-to-html-improved.js:623 | `match(/\S*/)[0]`: the longest prefix of the info string without JavaScript whitespace |
| ImprovedConverter.CodeLanguage | convert-to-html-improved.js:623-624 | `javascript` when the info string is absent, empty or starts with whitespace; otherwise its first whitespace-free word, which is never empty |
| ImprovedConverter.Code | convert-to-html-improved.js:622-642 | the code-block renderer; stated by `CodeEscapesOnce` and `CodeParsesBack` |
| ImprovedConverter.CodeEscapesOnce | convert-to-html-improved.js:639-641 | the block holds the code verbatim when it comes escaped; otherwise it holds `escapeHtml(code)`, which has no markup characters and unescapes to the code |
| ImprovedConverter.CodeParsesBack | convert-to-html-improved.js:641 | a block reads back as a bare `pre` tag, then a `code` tag whose class is `language-` plus the language, then the block's text |
| ImprovedConverter.Codespan | convert-to-html-improved.js:645-647 | the text sits verbatim between `<code>` and `</code>`, 13 characters longer than the text |
| ImprovedConverter.Table | convert-to-html-improved.js:650-659 | the table renderer; stated by `TableNesting` and `TableBodyIff` |
| ImprovedConverter.TableNesting | convert-to-html-improved.js:650-659 | a table reads back as the `table-responsive` div, then the `table table-striped table-hover` table, then the `table-dark` thead, then the header rows |
| ImprovedConverter.TableBodyIff | convert-to-html-improved.js:651-658 | a table has a `<tbody>` exactly when it has body rows |
| ImprovedConverter.List | convert-to-html-improved.js:662-666 | the list renderer; stated by `ListParsesBack` |
| ImprovedConverter.ListParsesBack | convert-to-html-improved.js:662-666 | a list opens with `ol` exactly when it is ordered; it has a `start` attribute exactly when it is ordered and does not begin at 1, and that attribute reads back as the start number |
| ImprovedConverter.Link | convert-to-html-improved.js:669-680 | the link renderer; stated by `LinkParsesBack` and `LinkLookups` |
| ImprovedConverter.LinkParsesBack | convert-to-html-improved.js:669-680 | a link reads back as an `a` tag: `href` is the target; `title` appears exactly for a non-empty title; `target="_blank"` and `rel="noopener noreferrer"` appear exactly for `http://` and `https://` targets; the link text follows verbatim |
| ImprovedConverter.LinkLookups | convert-to-html-improved.js:670-676 | each attribute a link can carry, looked up by name, has the value the rules above give it |
| ImprovedConverter.CreateHtmlTemplate | convert-to-html-improved.js:6-582 | the page as fixed text around the title and content holes; stated by `TitleHole`, `ContentHole`, `PageHasDescription`, `PageHasBreadcrumb`, `PageHasButton` and `FlagParts` |
| ImprovedConverter.TitleHole | convert-to-html-improved.js:17 | pages that differ only in their title differ only between `<title>` and `</title>`, where the title stands verbatim |
| ImprovedConverter.ContentHole | convert-to-html-improved.js:442-447 | pages that differ only in their content differ only inside `<main>`'s container, right before the buttons, where the content stands verbatim |
| ImprovedConverter.PageHasDescription | convert-to-html-improved.js:14 | the page carries the description tag of its kind |
| ImprovedConverter.PageHasBreadcrumb | convert-to-html-improved.js:432-440 | the page carries the breadcrumb naming its own tutorial, whatever the title argument |
| ImprovedConverter.PageHasButton | convert-to-html-improved.js:446-464 | the page links to every target of its kind's buttons |
| ImprovedConverter.FlagParts | convert-to-html-improved.js:7-14 | description, breadcrumb label and buttons all follow from the flag |
| ImprovedConverter.IsNodejsTutorial | convert-to-html-improved.js:690 | `inputFile.includes('nodejs-tutorial')`; stated by `NodeFileMatches`, `ExpressFileDoesNot` and `TutorialFilesTold` |
| ImprovedConverter.NodeFileMatches | convert-to-html-improved.js:690 | `nodejs-tutorial.md` is taken for the Node.js page in any directory |
| ImprovedConverter.ExpressFileDoesNot | convert-to-html-improved.js:690 | `express-tutorial.md` is not, in a directory that does not itself mention `nodejs-tutorial` |
| ImprovedConverter.TutorialFilesTold | convert-to-html-improved.js:690-691 | the two source files get different page kinds |
| ImprovedConverter.ConvertedPage | convert-to-html-improved.js:689-691 | the page kind comes from the file name and is passed to the template; stated by `ConvertedPagesOfTheirKind` |
| ImprovedConverter.ConvertedPagesOfTheirKind | convert-to-html-improved.js:689-691 | the page for `nodejs-tutorial.md` carries the Node.js description and breadcrumb, and the page for `express-tutorial.md` the Express.js ones |
| SiteMarkup.HeadMetaBlock | convert-to-html-improved.js:13-16 | the meta block starts with the viewport tag and contains the description tag |
| SiteMarkup.BreadcrumbHeadNoDivEnd | update-tutorials.js:22-25 | nothing before the current page's label closes a `div` |
| SiteMarkup.BreadcrumbBraceFree | update-tutorials.js:22-28 | no `{` appears in the breadcrumb around the label |
| SiteMarkup.NavButtonsLinkEach | convert-to-html-improved.js:447-454 | every button of a navigation block is an anchor to its link's target |
| SiteMarkup.RenderNavLinksEach | update-tutorials.js:208-215 | the navigation block holds an anchor to every target |
| SiteMarkup.PageNavTargets | convert-to-html-improved.js:446-464 | each page's buttons lead home and to the other tutorial, never to the page itself |
| OriginalConverter.Heading | convert-to-html.js:164-170 | the original heading renderer; stated by `HeadingParsesBack` and `HeadingsAgreeWithoutTags` |
| OriginalConverter.HeadingParsesBack | convert-to-html.js:164-170 | a heading reads back as an `h<level>` tag whose only attribute is a slug id, then the raw text verbatim |
| OriginalConverter.HeadingsAgreeWithoutTags | convert-to-html.js:164-170 | headings without markup come out the same from both converters |
| OriginalConverter.CodeLanguage | convert-to-html.js:174 | the whole info string, or `javascript` when it is absent or empty; stated by `LanguagesAgreeOnOneWord` and `LanguagesDifferOnMoreWords` |
| OriginalConverter.Code | convert-to-html.js:173-176 | the original code-block renderer; stated by `CodeParsesBack` and `CodeBlocksCompared` |
| OriginalConverter.CodeParsesBack | convert-to-html.js:173-176 | a block reads back as `pre`, then `code` naming the language, then the code unescaped |
| OriginalConverter.LanguagesAgreeOnOneWord | convert-to-html.js:174 | for a one-word or absent info string both converters name the same language |
| OriginalConverter.LanguagesDifferOnMoreWords | convert-to-html.js:174 | for `word more` the original takes the whole string and the improved converter takes `word` |
| OriginalConverter.CodeBlocksCompared | convert-to-html.js:175 | where the languages agree, the improved block holds the escaped code where the original holds it verbatim; both agree on code that comes already escaped |
| OriginalConverter.Table | convert-to-html.js:179-186 | the original table renderer; stated by `TableAlwaysHasBody` and `TablesCompared` |
| OriginalConverter.TableAlwaysHasBody | convert-to-html.js:179-186 | every original table has a `<tbody>`, even without rows |
| OriginalConverter.TablesCompared | convert-to-html.js:179-186 | with rows both converters write the same table; without rows the original writes the empty `<tbody></tbody>`, 15 characters, that the improved one leaves out |
| OriginalConverter.CreateHtmlTemplate | convert-to-html.js:6-149 | the original page as fixed text around the title and content holes; stated by `TitleHole` and `ContentHole` |
| OriginalConverter.TitleHole | convert-to-html.js:12 | pages that differ only in their title differ only inside `<title>` |
| OriginalConverter.ContentHole | convert-to-html.js:106-108 | pages that differ only in their content differ only in the container that opens the body |
| TutorialUpdater.UpdatedPage | update-tutorials.js:175-239 | the six splices composed in the source's order; the method `UpdateTutorialHtml` is proved to compute it |
| TutorialUpdater.UpdateTutorialHtml | update-tutorials.js:175-239 | the six reassignments of `html`, including the substring arithmetic of the wrap, compute the composition of the six splices |
| TutorialUpdater.WrapMainBySubstrings | update-tutorials.js:194-204 | the source's `indexOf`/`substring` arithmetic, including the `substring(-1)` of a page without `<body>`, opens `<main>` at the first marker at or after `<body>` |
| TutorialUpdater.WrapStart | update-tutorials.js:194-196 | the marker where `<main>` opens is at or after the first `<body>`; -1 only when no marker follows it; the first marker anywhere when there is no `<body>` |
| TutorialUpdater.AddFontAwesome | update-tutorials.js:178-184 | the Font Awesome splice; stated by `FontAwesomePlacement` and `FontAwesomeIdempotent` |
| TutorialUpdater.FontAwesomePlacement | update-tutorials.js:178-184 | without `font-awesome`, the link goes right after the first Bootstrap link and nowhere else; with it, or without a Bootstrap link, the page is unchanged |
| TutorialUpdater.FontAwesomeIdempotent | update-tutorials.js:178-184 | a second run adds no second link |
| TutorialUpdater.AddStyles | update-tutorials.js:187 | the styles splice; stated by `StylesPlacement` and `StylesNotIdempotent` |
| TutorialUpdater.StylesPlacement | update-tutorials.js:187 | the styles and a line break go right before the first `</head>` and everything around it stays, so the page grows by exactly that and keeps its `</head>`; without `</head>` it is unchanged |
| TutorialUpdater.StylesNotIdempotent | update-tutorials.js:187 | a second run inserts a second copy of the styles |
| TutorialUpdater.HeaderWithTitleIs | update-tutorials.js:190 | `{TITLE}` is the header's only hole, and the title fills it as the breadcrumb's current item |
| TutorialUpdater.AddHeader | update-tutorials.js:190-191 | the header splice; stated by `HeaderWithTitleIs` and `HeaderPlacement` |
| TutorialUpdater.HeaderPlacement | update-tutorials.js:191 | the header with the title goes right after the first `<body>` and everything around it stays; without `<body>` the page is unchanged |
| TutorialUpdater.WrapMain | update-tutorials.js:194-204 | the `<main>` wrap; stated by `WrapMainBySubstrings`, `WrapPlacement` and `WrapLandsOnBreadcrumb` |
| TutorialUpdater.WrapPlacement | update-tutorials.js:194-204 | `<main>` opens right before the marker and closes right after the first `</div>` from there; it stays unclosed when no `</div>` follows; without a marker the page is unchanged |
| TutorialUpdater.WrapLandsOnBreadcrumb | update-tutorials.js:191-204 | after the header step, `<main>` wraps the breadcrumb's container and closes before the breadcrumb's `</nav>`, so the page's own content is not wrapped |
| TutorialUpdater.NavigationChoice | update-tutorials.js:207-231 | the Node.js buttons and description are chosen exactly when the title equals the Node.js title; the buttons always lead home and to the other tutorial |
| TutorialUpdater.AddFooter | update-tutorials.js:207-226 | the buttons and footer splice; stated by `NavigationChoice` and `FooterPlacement` |
| TutorialUpdater.FooterPlacement | update-tutorials.js:226 | buttons, footer and scripts go right before the first `</body>` and everything else stays; without `</body>` the page is unchanged |
| TutorialUpdater.ViewportMatch | update-tutorials.js:234 | a match runs from `<meta name="viewport"` to the first `>` after it |
| TutorialUpdater.ViewportMatchLeftmost | update-tutorials.js:234 | the match found is the leftmost one, and the only one that starts there; when none is found there is none at all |
| TutorialUpdater.ReplaceViewport | update-tutorials.js:233-239 | the regular-expression replacement of the first viewport tag; stated by `ViewportMatch`, `ViewportMatchLeftmost` and `ViewportReplacedOnce` |
| TutorialUpdater.UpdateMeta | update-tutorials.js:229-239 | the meta splice; stated by `ViewportReplacedOnce` and `ViewportRerun` |
| TutorialUpdater.ViewportReplacedOnce | update-tutorials.js:233-239 | only the leftmost viewport tag is replaced and the text around it stays; a page without one is unchanged |
| TutorialUpdater.ViewportRerun | update-tutorials.js:233-239 | the block starts with a viewport tag of its own, so a second run finds it and inserts the description, keywords and author tags a second time |

## Left out

- File I/O, console logging, the `try`/`catch` reporting and the driver loops of all three scripts (`main`, the file lists, `existsSync` skipping). These are not part of this model. `UpdateTutorialHtml` takes the page text and returns the new text instead of reading and writing the file.
- The `marked` library: Markdown parsing, its options and both `highlight` callbacks. The renderers receive the strings, numbers and flags that the parser would hand over. `ConvertedPage` takes the parser's HTML as a parameter.
- `assets/js/main.js` (browser event handlers) is not part of this model.
- Long constant markup is held as opaque constant strings whose text is not modelled:
  - the stylesheets and header (`ImprovedConverter.StylesAndHeader`);
  - the footers and scripts (`ImprovedConverter.FooterAndScripts`, `OriginalConverter.LinksAndStyle`, `OriginalConverter.ButtonAndScripts`);
  - the injector's `footerHTML`, `additionalStyles` and `additionalScripts`.

  The injector's header up to the breadcrumb's container (`HeaderLead`) is opaque too. Only two facts are assumed about it: it holds no `{` and no `<div class="container">`. Both hold for update-tutorials.js:4-21.
- The typed constants: the titles, descriptions, breadcrumb, navigation buttons and meta tags are written out exactly.
- HeadingSlug.ToLowerAscii: only ASCII letters are lower-cased; JavaScript's `toLowerCase` also maps other scripts. Both leave Japanese unchanged.
- Characters: a Dafny `char` is a Unicode scalar value, whereas JavaScript strings are UTF-16 code units. The two agree on the Basic Multilingual Plane. An astral character is two units in JavaScript, both outside the slug's allow-set, so either way it collapses into the same single `-`.
- The `typeof text === 'string' ? text : String(text)` coercions: the renderers take strings.
- `$` patterns in `replace` replacement strings are not interpreted. The constants hold none, and titles are assumed to hold none.
- ImprovedConverter.LinkParsesBack: proved only for an `href` and title without `"`; the model assumes the parser hands them over that way. For other inputs the link text is still fixed by `LinkText`, but a quote can end the attribute early.
- ImprovedConverter.CodeParsesBack: proved for a language without `"`. A first word holding a `"` would end the `class` attribute early.
- OriginalConverter.CodeParsesBack: proved for a language without `"`. The original takes the whole info string as the language, so an info string such as `js title="x"` puts a `"` into `class="language-…"` and ends the attribute early.
- TutorialUpdater.WrapLandsOnBreadcrumb: stated for a page that has a `<body>` and a title without `</div>`. For a title with `</div>`, `</main>` lands inside the label instead.
- Heading levels and list start numbers are non-negative integers. Negative start numbers are not modelled.
