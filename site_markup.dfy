/** Markup that both the improved converter's page template and the
    tutorial updater put into a tutorial page: the two page titles and
    descriptions, the block of `<meta>` tags in the head, and the
    previous/next navigation buttons under the content. */
module SiteMarkup {
  import opened JsString

  const NodeTitle: string := "Node.js 初心者向けチュートリアル"
  const ExpressTitle: string := "Express.js 初心者向けチュートリアル"

  const NodeDescription: string := "Node.js" + "の基本概念から実践的な使い方まで、初心者向けに分かりやすく解説します。"
  const ExpressDescription: string := "Express.js" + "フレームワークを使ったWebアプリケーション開発を基礎から学習できます。"

  const NodePage: string := "nodejs-tutorial.html"
  const ExpressPage: string := "express-tutorial.html"
  const HomePage: string := "index.html"

  lemma DescriptionsDiffer()
    ensures NodeDescription != ExpressDescription
  {
    assert NodeDescription[0] == 'N';
    assert ExpressDescription[0] == 'E';
  }

  /** The title of the Node.js page or of the Express.js page. */
  function PageTitle(forNode: bool): string {
    if forNode then NodeTitle else ExpressTitle
  }

  function PageDescription(forNode: bool): string {
    if forNode then NodeDescription else ExpressDescription
  }

  /** The file name of the page itself, and of the other tutorial. */
  function OwnPage(forNode: bool): string {
    if forNode then NodePage else ExpressPage
  }

  function OtherPage(forNode: bool): string {
    if forNode then ExpressPage else NodePage
  }

  // The head's meta tags. They are assembled from short pieces so that
  // facts about single characters in them stay cheap to prove.
  const ViewportOpen: string := "<meta name=\"viewport\""
  const ViewportContent: string := "width=device-width, initial-scale=1.0"
  const ViewportMeta: string := ViewportOpen + " content=\"" + ViewportContent + "\">"

  function DescriptionMeta(description: string): string {
    "<meta name=\"description\" content=\"" + description + "\">"
  }

  const KeywordsMeta: string :=
    "<meta name=\"keywords\" content=\"" + "Node.js, Express.js, JavaScript, " + "チュートリアル, 初心者, 日本語" + "\">"
  const AuthorMeta: string := "<meta name=\"author\"" + " content=\"Node.js Tutorial\">"

  /** The viewport, description, keywords and author tags, one per line. */
  function HeadMetaBlock(description: string): (r: string)
    ensures StartsWith(r, ViewportMeta)
    ensures Contains(r, DescriptionMeta(description))
  {
    var r := (ViewportMeta + "\n    ") + DescriptionMeta(description) + ("\n    " + KeywordsMeta + "\n    " + AuthorMeta);
    ContainsSelf(DescriptionMeta(description));
    ContainsInMiddle(ViewportMeta + "\n    ", DescriptionMeta(description),
                     "\n    " + KeywordsMeta + "\n    " + AuthorMeta, DescriptionMeta(description));
    assert r[..|ViewportMeta|] == ViewportMeta;
    r
  }

  /** The only `>` of the viewport tag is its last character. */
  lemma ViewportMetaShape()
    ensures StartsWith(ViewportMeta, ViewportOpen)
    ensures ViewportMeta[|ViewportMeta| - 1] == '>'
    ensures '>' !in ViewportMeta[|ViewportOpen|..|ViewportMeta| - 1]
    ensures '<' !in ViewportOpen[1..] && ViewportOpen[0] == '<'
  {
    assert ViewportMeta[|ViewportOpen|..|ViewportMeta| - 1] == " content=\"" + ViewportContent + "\"";
    assert ViewportMeta[..|ViewportOpen|] == ViewportOpen;
  }

  /** The `<div class="container">` that opens the breadcrumb's and the
      content's container. */
  const ContainerMarker: string := "<div class=\"container\">"

  // The breadcrumb bar's container up to the current page's label: the
  // list, the link home and the opening of the current item.
  const BreadcrumbListOpen: string := "\n            <ol class=\"breadcrumb mb-0\">\n"
  const HomeCrumb: string :=
    "                " + "<li class=\"breadcrumb-item\">" + "<a href=\"index.html\">ホーム</a></li>\n"
  const CurrentCrumbOpen: string :=
    "                " + "<li class=\"breadcrumb-item active\"" + " aria-current=\"page\">"
  const BreadcrumbHead: string := ContainerMarker + BreadcrumbListOpen + HomeCrumb + CurrentCrumbOpen

  /** After the label: the end of the item, the list, the container and
      the breadcrumb bar. */
  const ListClose: string := "</li>\n            </ol>\n        "
  const BreadcrumbTail: string := ListClose + "</div>" + "\n    </nav>"

  /** The breadcrumb bar's container, naming `current` as the current page. */
  function BreadcrumbBody(current: string): string {
    BreadcrumbHead + current + BreadcrumbTail
  }

  lemma MarkerBraceFree() ensures '{' !in ContainerMarker {}
  lemma ListOpenBraceFree() ensures '{' !in BreadcrumbListOpen {}
  lemma HomeCrumbBraceFree() ensures '{' !in HomeCrumb {}
  lemma CurrentCrumbBraceFree() ensures '{' !in CurrentCrumbOpen {}

  /** No `{` appears in the breadcrumb around the label. */
  lemma BreadcrumbBraceFree()
    ensures '{' !in BreadcrumbHead && '{' !in BreadcrumbTail
  {
    MarkerBraceFree();
    ListOpenBraceFree();
    HomeCrumbBraceFree();
    CurrentCrumbBraceFree();
  }

  /** The breadcrumb's container starts the head, and the first `</div>`
      of the tail is that container's end. */
  lemma BreadcrumbContainer()
    ensures StartsWith(BreadcrumbHead, ContainerMarker)
    ensures 'd' !in ListClose
  {
    assert BreadcrumbHead[..|ContainerMarker|] == ContainerMarker;
  }

  lemma MarkerNoSlash() ensures '/' !in ContainerMarker && ContainerMarker[|ContainerMarker| - 1] == '>' {}
  lemma ListOpenNoSlash() ensures '/' !in BreadcrumbListOpen && BreadcrumbListOpen[|BreadcrumbListOpen| - 1] == '\n' {}
  lemma HomeCrumbNoV() ensures 'v' !in HomeCrumb && HomeCrumb[|HomeCrumb| - 1] == '\n' {}
  lemma CurrentCrumbNoSlash() ensures '/' !in CurrentCrumbOpen && CurrentCrumbOpen[|CurrentCrumbOpen| - 1] == '>' {}
  lemma ListCloseEnds() ensures ListClose[0] == '<' && ListClose[|ListClose| - 1] == ' ' {}

  /** No `</div>` closes anything inside the breadcrumb head, which ends
      with the current item's start tag. */
  lemma BreadcrumbHeadNoDivEnd()
    ensures !Contains(BreadcrumbHead, "</div>")
    ensures BreadcrumbHead[|BreadcrumbHead| - 1] == '>'
  {
    var pat := "</div>";
    MarkerNoSlash();
    ListOpenNoSlash();
    HomeCrumbNoV();
    CurrentCrumbNoSlash();
    var a := ContainerMarker + BreadcrumbListOpen;
    assert '/' !in a;
    NotContainsByChar(a, pat, '/');
    NotContainsByChar(HomeCrumb, pat, 'v');
    NotContainsByChar(CurrentCrumbOpen, pat, '/');
    assert a[|a| - 1] == '\n';
    ContainsConcat(a, HomeCrumb, pat);
    var b := a + HomeCrumb;
    assert b[|b| - 1] == '\n';
    ContainsConcat(b, CurrentCrumbOpen, pat);
  }

  function Spaces(n: nat): (r: string)
    ensures |r| == n && forall i :: 0 <= i < n ==> r[i] == ' '
  {
    if n == 0 then "" else " " + Spaces(n - 1)
  }

  /** One button of the navigation block: where it leads and what it shows. */
  datatype NavLink = NavLink(href: string, caption: string)

  const HomeLink: NavLink := NavLink(HomePage, "<i class=\"fas fa-home\"></i> ホーム")
  const ExpressLink: NavLink := NavLink(ExpressPage, "Express.js Tutorial <i class=\"fas fa-arrow-right\"></i>")
  const NodeLink: NavLink := NavLink(NodePage, "<i class=\"fas fa-arrow-left\"></i> Node.js Tutorial")

  /** The buttons under a page: the Node.js page leads home and on to
      Express.js, the Express.js page back to Node.js and home. */
  function PageNav(forNode: bool): seq<NavLink> {
    if forNode then [HomeLink, ExpressLink] else [NodeLink, HomeLink]
  }

  /** The anchor text a button for `href` opens with. */
  function AnchorTo(href: string): string {
    "<a href=\"" + href + "\""
  }

  /** One button, its lines indented by `indent`. */
  function NavButton(indent: string, link: NavLink): string {
    indent + AnchorTo(link.href) + ButtonRest(indent, link.caption)
  }

  function ButtonRest(indent: string, caption: string): string {
    " class=\"nav-btn\">\n" + indent + "    " + caption + "\n" + indent + "</a>\n"
  }

  function NavButtons(indent: string, links: seq<NavLink>): string {
    if links == [] then "" else NavButton(indent, links[0]) + NavButtons(indent, links[1..])
  }

  /** The opening line of the `navigation-buttons` block. */
  function NavOpen(indent: string): string {
    indent + "<div class=\"navigation-buttons\">\n"
  }

  /** The `navigation-buttons` block, its lines indented by `indent`. */
  function RenderNav(indent: string, links: seq<NavLink>): string {
    NavOpen(indent) + NavButtons(indent + "    ", links) + (indent + "</div>")
  }

  /** Every link of the list is written out as an anchor to its target. */
  lemma {:induction false} NavButtonsLinkEach(indent: string, links: seq<NavLink>, i: nat)
    requires i < |links|
    ensures Contains(NavButtons(indent, links), AnchorTo(links[i].href))
  {
    var first := NavButton(indent, links[0]);
    var rest := NavButtons(indent, links[1..]);
    var pat := AnchorTo(links[i].href);
    if i == 0 {
      ContainsSelf(pat);
      ContainsInMiddle(indent, pat, ButtonRest(indent, links[0].caption), pat);
      ContainsInMiddle("", first, rest, pat);
      assert "" + first + rest == NavButtons(indent, links);
    } else {
      NavButtonsLinkEach(indent, links[1..], i - 1);
      assert links[1..][i - 1] == links[i];
      ContainsInMiddle(first, rest, "", pat);
      assert first + rest + "" == NavButtons(indent, links);
    }
  }

  lemma RenderNavLinksEach(indent: string, links: seq<NavLink>, i: nat)
    requires i < |links|
    ensures Contains(RenderNav(indent, links), AnchorTo(links[i].href))
  {
    NavButtonsLinkEach(indent + "    ", links, i);
    ContainsInMiddle(NavOpen(indent), NavButtons(indent + "    ", links),
                     indent + "</div>", AnchorTo(links[i].href));
  }

  /** Each page's buttons lead home and to the other tutorial, never to the
      page itself. */
  lemma PageNavTargets(forNode: bool)
    ensures HomeLink in PageNav(forNode)
    ensures exists l :: l in PageNav(forNode) && l.href == OtherPage(forNode)
    ensures forall l :: l in PageNav(forNode) ==> l.href != OwnPage(forNode)
  {
    if forNode {
      assert ExpressLink in PageNav(forNode);
    } else {
      assert NodeLink in PageNav(forNode);
    }
  }
}
