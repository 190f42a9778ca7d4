/**
 * `EpubItemExporter` (shamela/exporters/epub.py): the state it keeps while
 * turning a crawled book into EPUB documents — the colour classes, the
 * chapter links, the pages — and the page-level rewriting, file naming and
 * table of contents built from that state.
 */
module Epub {
  import opened Common
  import opened Toc
  import opened Volumes
  import Walker
  import opened Styles
  import opened Headings
  import opened Hamesh

  /** `epub.Link(href, title, uid)`. */
  datatype Link = Link(href: string, title: string, uid: string)

  /** An entry of the table of contents once `_update_toc_list` has replaced its links. */
  datatype TocEntry = Section(link: Option<Link>) | Entries(entries: seq<TocEntry>)

  /** An `epub.EpubHtml` document. */
  datatype HtmlPage = HtmlPage(title: string, fileName: string, content: string)

  /** An entry of the reading order: a document, or the navigation document `'nav'`. */
  datatype SpineItem = PageItem(page: HtmlPage) | NavItem

  /** The `info` part of a crawled book, as the exporter reads it; `url` is a key the dict may lack. */
  datatype BookInfo = BookInfo(
    title: string,
    author: string,
    url: Option<string>,
    about: string,
    toc: seq<Item>,
    pageChapters: seq<(int, seq<string>)>,
    volumes: seq<(string, Range)>)

  /** Why `export_item` stops before it builds a document. */
  datatype ExportError =
    | IndexError       // `pages[-1]` on an empty page list
    | KeyError(key: string) // `info[key]` on a key the dict lacks

  /** The error `export_item` raises, if any: the page list is read first, then `info['url']`. */
  function ExportFailure(info: BookInfo, records: seq<Walker.PageRecord>): Option<ExportError> {
    if records == [] then Some(IndexError)
    else if info.url.None? then Some(KeyError("url"))
    else None
  }

  /** The `info` dict the book spider hands on, as the exporter reads it: nothing adds a `url` to it. */
  function CrawledInfo(b: Walker.Book): BookInfo {
    BookInfo(b.title, b.author, None, b.about, b.toc, b.pageChapters, b.volumes)
  }

  /**
   * No book the spider emits gets through `export_item`: with pages, the
   * `info['url']` lookup raises `KeyError` right after the zero-fill width
   * is set (epub.py:277-281), and without pages `pages[-1]` fails first.
   */
  lemma CrawledBookNotExported(b: Walker.Book)
    ensures ExportFailure(CrawledInfo(b), b.text) == Some(if b.text == [] then IndexError else KeyError("url"))
  {
  }

  /** What the selectors find in a page text: the first `div`, the `.hamesh` blocks, the `p:not(.hamesh)` paragraphs. */
  datatype PageDom = PageDom(div: string, blocks: seq<string>, paragraphs: seq<string>)

  const EpubCss: string :=
    "*{direction: rtl}.text-center, h2{text-align: center}.hamesh{font-size: smaller}"
    + ".fn{font-size: x-small;vertical-align: super;color: inherit}.nu{text-decoration: none}"
    + ".hamesh .nu{color: #008000}"

  const InfoTitle: string := "بطاقة الكتاب"
  const InfoLink: Link := Link("info.xhtml", InfoTitle, "info")
  const NavLink: Link := Link("nav.xhtml", "فهرس الموضوعات", "nav")

  // ---------------------------------------------------------------------------
  // Volume lookup and file names (export_item)

  /** The volume's inclusive range holds the physical page. */
  predicate InVolume(v: (string, Range), page: int) {
    v.1.0 <= page <= v.1.1
  }

  function VolumeFrom(volumes: seq<(string, Range)>, page: int, i: nat): (nat, string)
    requires i <= |volumes|
    decreases |volumes| - i
  {
    if i == |volumes| then (1, "")
    else if InVolume(volumes[i], page) then (i, volumes[i].0)
    else VolumeFrom(volumes, page, i + 1)
  }

  /** `next(((index, k) for index, (k, v) in enumerate(volumes) if v[0] <= page <= v[1]), (1, ''))`. */
  function PageVolume(volumes: seq<(string, Range)>, page: int): (nat, string) {
    VolumeFrom(volumes, page, 0)
  }

  lemma {:induction false} VolumeFromFirst(volumes: seq<(string, Range)>, page: int, i: nat)
    requires i <= |volumes|
    ensures var v := VolumeFrom(volumes, page, i);
      if exists j :: i <= j < |volumes| && InVolume(volumes[j], page) then
        && i <= v.0 < |volumes| && v.1 == volumes[v.0].0 && InVolume(volumes[v.0], page)
        && forall j :: i <= j < v.0 ==> !InVolume(volumes[j], page)
      else v.0 == 1 && v.1 == ""
    decreases |volumes| - i
  {
    if i < |volumes| && !InVolume(volumes[i], page) {
      VolumeFromFirst(volumes, page, i + 1);
      if exists j :: i <= j < |volumes| && InVolume(volumes[j], page) {
        var j :| i <= j < |volumes| && InVolume(volumes[j], page);
        assert i + 1 <= j;
      }
    }
  }

  /**
   * The volume of a page is the first (0-based) one whose range holds it;
   * when none does, index 1 and no label.
   */
  lemma {:induction false} PageVolumeFirst(volumes: seq<(string, Range)>, page: int)
    ensures var v := PageVolume(volumes, page);
      if exists j :: 0 <= j < |volumes| && InVolume(volumes[j], page) then
        && v.0 < |volumes| && v.1 == volumes[v.0].0 && InVolume(volumes[v.0], page)
        && forall j :: 0 <= j < v.0 ==> !InVolume(volumes[j], page)
      else v.0 == 1 && v.1 == ""
  {
    VolumeFromFirst(volumes, page, 0);
  }

  /** `page{'_' if page_volume else ''}{idx}_{str(page_number).zfill(width)}.xhtml`. */
  function PageFileName(volumeName: string, idx: nat, pageNumber: int, width: int): string {
    "page" + (if volumeName != "" then "_" else "") + NatToString(idx) + "_" + ZFill(IntToString(pageNumber), width) + ".xhtml"
  }

  /** In digits followed by `_`, the first `_` is right after the digits. */
  lemma {:induction false} UnderscoreAfterDigits(d: string, t: string)
    requires forall k :: 0 <= k < |d| ==> IsDigit(d[k])
    ensures (d + "_" + t)[|d|] == '_'
    ensures forall k :: 0 <= k < |d| ==> (d + "_" + t)[k] != '_'
  {
  }

  /** Two digit strings each followed by `_`: equal texts split the same way. */
  lemma {:induction false} DigitsThenUnderscore(d1: string, t1: string, d2: string, t2: string)
    requires forall k :: 0 <= k < |d1| ==> IsDigit(d1[k])
    requires forall k :: 0 <= k < |d2| ==> IsDigit(d2[k])
    requires d1 + "_" + t1 == d2 + "_" + t2
    ensures d1 == d2 && t1 == t2
  {
    var s := d1 + "_" + t1;
    UnderscoreAfterDigits(d1, t1);
    UnderscoreAfterDigits(d2, t2);
    assert |d1| == |d2|;
    assert d1 == s[..|d1|] == d2;
    assert t1 == s[|d1| + 1..] == t2;
  }

  /** What follows `page` and the optional `_`. */
  function NameTail(idx: nat, pageNumber: int, width: int): string {
    NatToString(idx) + "_" + (ZFill(IntToString(pageNumber), width) + ".xhtml")
  }

  lemma {:induction false} PageFileNameSplit(volumeName: string, idx: nat, pageNumber: int, width: int)
    ensures PageFileName(volumeName, idx, pageNumber, width)
      == "page" + ((if volumeName != "" then "_" else "") + NameTail(idx, pageNumber, width))
  {
  }

  /** The fifth character tells whether there is a volume label, and the tails agree. */
  lemma {:induction false} PageFileNameHead(v1: string, i1: nat, n1: int, w1: int, v2: string, i2: nat, n2: int, w2: int)
    requires PageFileName(v1, i1, n1, w1) == PageFileName(v2, i2, n2, w2)
    ensures (v1 != "") == (v2 != "") && NameTail(i1, n1, w1) == NameTail(i2, n2, w2)
  {
    PageFileNameSplit(v1, i1, n1, w1);
    PageFileNameSplit(v2, i2, n2, w2);
    var s := PageFileName(v1, i1, n1, w1);
    var u1 := if v1 != "" then "_" else "";
    var u2 := if v2 != "" then "_" else "";
    var t1 := NameTail(i1, n1, w1);
    var t2 := NameTail(i2, n2, w2);
    assert s[4] == (u1 + t1)[0] == (if v1 != "" then '_' else NatToString(i1)[0]);
    assert s[4] == (u2 + t2)[0] == (if v2 != "" then '_' else NatToString(i2)[0]);
    assert u1 + t1 == s[4..] == u2 + t2;
    assert t1 == (u1 + t1)[|u1|..];
    assert t2 == (u2 + t2)[|u2|..];
  }

  /**
   * A file name tells whether the page has a volume label, the volume index
   * and the page number: no two pages of a book that differ in any of these
   * share a file.
   */
  lemma {:induction false} PageFileNameInjective(v1: string, i1: nat, n1: nat, w1: int, v2: string, i2: nat, n2: nat, w2: int)
    requires PageFileName(v1, i1, n1, w1) == PageFileName(v2, i2, n2, w2)
    ensures (v1 != "") == (v2 != "") && i1 == i2 && n1 == n2
  {
    PageFileNameHead(v1, i1, n1, w1, v2, i2, n2, w2);
    var z1 := ZFill(NatToString(n1), w1);
    var z2 := ZFill(NatToString(n2), w2);
    assert IntToString(n1) == NatToString(n1) && IntToString(n2) == NatToString(n2);
    DigitsThenUnderscore(NatToString(i1), z1 + ".xhtml", NatToString(i2), z2 + ".xhtml");
    NatToStringInjective(i1, i2);
    assert z1 == (z1 + ".xhtml")[..|z1|];
    assert z2 == (z2 + ".xhtml")[..|z2|];
    ZFillNatRoundTrip(n1, w1);
    ZFillNatRoundTrip(n2, w2);
  }

  /** The footer: the volume volumeName when there is one, then the physical page. */
  function Footer(volumeName: string, page: int): string {
    (if volumeName != "" then "الجزء: " + volumeName + " - " else "") + "الصفحة: " + IntToString(page)
  }

  function PageContent(text: string, footer: string): string {
    "<html><body>" + text + "<div class=\"text-center\">" + footer + "</div></body></html>"
  }

  function InfoPage(info: BookInfo): HtmlPage {
    HtmlPage(InfoTitle, "info.xhtml", "<html><body>" + info.about + "</body></html>")
  }

  /** The chapters starting on a page (`None` and `[]` are both "no chapter"). */
  function PageChapters(info: BookInfo, r: Walker.PageRecord): seq<string> {
    match Get(info.pageChapters, r.pageNumber)
    case Some(cs) => cs
    case None => []
  }

  function PageTitle(info: BookInfo, r: Walker.PageRecord): string {
    var cs := PageChapters(info, r);
    if cs != [] then cs[0] else ""
  }

  function PageFileNameOf(info: BookInfo, r: Walker.PageRecord, width: int): string {
    var v := PageVolume(info.volumes, r.page);
    PageFileName(v.1, v.0, r.pageNumber, width)
  }

  function PageFooter(info: BookInfo, r: Walker.PageRecord): string {
    Footer(PageVolume(info.volumes, r.page).1, r.page)
  }

  /** `len(str(pages[-1]['page_number'])) + 1`. */
  function ZFillLength(records: seq<Walker.PageRecord>): int
    requires records != []
  {
    |IntToString(records[|records| - 1].pageNumber)| + 1
  }

  /**
   * The text of a page after the colour classes, the ligatures, the chapter
   * headers and, when enabled, the footnote rewriting.
   */
  function RewrittenText(p: Palette, text: string, order: seq<string>, chapters: seq<string>,
                         depthMap: map<string, int>, updateHamesh: bool,
                         dom: string -> PageDom, parse: string -> seq<string>): string
  {
    var recolored := Recolor(p, text, order).1;
    var expanded := ExpandLigatures(recolored);
    var titled := if chapters != [] then ReplacedTitles(chapters, expanded, depthMap) else expanded;
    if updateHamesh then
      var d := dom(titled);
      UpdatedPage(d.div, d.blocks, d.paragraphs, parse)
    else titled
  }

  /** The document `export_item` makes of one page record. */
  function ExportedPage(p: Palette, info: BookInfo, r: Walker.PageRecord, order: seq<string>,
                        depthMap: map<string, int>, updateHamesh: bool,
                        dom: string -> PageDom, parse: string -> seq<string>, width: int): HtmlPage
  {
    HtmlPage(PageTitle(info, r), PageFileNameOf(info, r, width),
             PageContent(RewrittenText(p, r.text, order, PageChapters(info, r), depthMap, updateHamesh, dom, parse),
                         PageFooter(info, r)))
  }

  /**
   * A page without colour styles, ligatures or chapters is exported with its
   * text as it is when footnotes are not rewritten, and with its `div` when
   * the page has no `.hamesh` block.
   */
  lemma {:induction false} RewrittenTextPlain(p: Palette, text: string, order: seq<string>, depthMap: map<string, int>,
                           updateHamesh: bool, dom: string -> PageDom, parse: string -> seq<string>)
    requires ColorStyles(text) == []
    requires forall k :: 0 <= k < |text| ==> Ligature(text[k]).None?
    ensures !updateHamesh ==> RewrittenText(p, text, order, [], depthMap, updateHamesh, dom, parse) == text
    ensures updateHamesh && dom(text).blocks == [] ==>
      RewrittenText(p, text, order, [], depthMap, updateHamesh, dom, parse) == dom(text).div
  {
    ExpandLigaturesIdentity(text);
  }

  // ---------------------------------------------------------------------------
  // Chapter links and the table of contents

  function ChapterUid(fileName: string): string {
    ReplaceAll(fileName, ".xhtml", "")
  }

  function ChapterLinks(chapters: seq<string>, fileName: string): (r: seq<Link>)
    ensures |r| == |chapters|
    ensures forall i :: 0 <= i < |r| ==> r[i] == Link(fileName, chapters[i], ChapterUid(fileName))
  {
    if chapters == [] then []
    else ChapterLinks(chapters[..|chapters| - 1], fileName) + [Link(fileName, chapters[|chapters| - 1], ChapterUid(fileName))]
  }

  function WithChapters(m: map<string, Link>, chapters: seq<string>, fileName: string): map<string, Link>
    decreases |chapters|
  {
    if chapters == [] then m
    else WithChapters(m, chapters[..|chapters| - 1], fileName)[chapters[|chapters| - 1] := Link(fileName, chapters[|chapters| - 1], ChapterUid(fileName))]
  }

  /** After `add_chapter` every chapter of the page links to the page; other titles keep their link. */
  lemma {:induction false} WithChaptersLinks(m: map<string, Link>, chapters: seq<string>, fileName: string)
    ensures WithChapters(m, chapters, fileName).Keys == m.Keys + set c | c in chapters
    ensures forall c :: c in chapters ==> WithChapters(m, chapters, fileName)[c] == Link(fileName, c, ChapterUid(fileName))
    ensures forall c :: c in m && c !in chapters ==> WithChapters(m, chapters, fileName)[c] == m[c]
    decreases |chapters|
  {
    if chapters != [] {
      var init := chapters[..|chapters| - 1];
      WithChaptersLinks(m, init, fileName);
      assert chapters == init + [chapters[|chapters| - 1]];
      assert (set c | c in chapters) == (set c | c in init) + {chapters[|chapters| - 1]};
    }
  }

  /** `_update_toc_list`: every link replaced by the section of its title (or `None`), lists kept. */
  function TocLinks(toc: seq<Item>, m: map<string, Link>): seq<TocEntry>
    decreases toc
  {
    if toc == [] then []
    else
      [match toc[0]
       case Leaf(_, text) => Section(if text in m then Some(m[text]) else None)
       case Nested(xs) => Entries(TocLinks(xs, m))]
      + TocLinks(toc[1..], m)
  }

  /** The entries in reading order. */
  function SectionsOf(t: seq<TocEntry>): seq<Option<Link>>
    decreases t
  {
    if t == [] then []
    else
      (match t[0]
       case Section(l) => [l]
       case Entries(es) => SectionsOf(es))
      + SectionsOf(t[1..])
  }

  /** The same nesting: a link where there was a link, a list of the same shape where there was a list. */
  predicate SameShape(toc: seq<Item>, t: seq<TocEntry>)
    decreases toc
  {
    |toc| == |t| &&
    forall i :: 0 <= i < |toc| ==>
      match toc[i]
      case Leaf(_, _) => t[i].Section?
      case Nested(xs) => t[i].Entries? && SameShape(xs, t[i].entries)
  }

  function LookUp(m: map<string, Link>, text: string): Option<Link> {
    if text in m then Some(m[text]) else None
  }

  /**
   * The rewritten table keeps the shape of the tree, and its entries in
   * reading order are the sections of the links' titles, in the same order.
   */
  lemma {:induction false} TocLinksFaithful(toc: seq<Item>, m: map<string, Link>)
    ensures SameShape(toc, TocLinks(toc, m))
    ensures |SectionsOf(TocLinks(toc, m))| == |Leaves(toc)|
    ensures forall i :: 0 <= i < |Leaves(toc)| ==> SectionsOf(TocLinks(toc, m))[i] == LookUp(m, Leaves(toc)[i].1)
    decreases toc
  {
    if toc != [] {
      var head := [toc[0]];
      var r := TocLinks(toc, m);
      TocLinksFaithful(toc[1..], m);
      var rest := TocLinks(toc[1..], m);
      assert r[1..] == rest;
      match toc[0]
      case Leaf(_, text) =>
        assert SectionsOf(r) == [LookUp(m, text)] + SectionsOf(rest);
      case Nested(xs) =>
        TocLinksFaithful(xs, m);
        assert r[0] == Entries(TocLinks(xs, m));
        assert SectionsOf(r) == SectionsOf(TocLinks(xs, m)) + SectionsOf(rest);
      forall i | 0 < i < |toc|
        ensures match toc[i]
          case Leaf(_, _) => r[i].Section?
          case Nested(xs) => r[i].Entries? && SameShape(xs, r[i].entries)
      {
        assert toc[i] == toc[1..][i - 1] && r[i] == rest[i - 1];
      }
    }
  }

  function PageItems(pages: seq<HtmlPage>): (r: seq<SpineItem>)
    ensures |r| == |pages| && forall i :: 0 <= i < |pages| ==> r[i] == PageItem(pages[i])
  {
    if pages == [] then [] else [PageItem(pages[0])] + PageItems(pages[1..])
  }

  /** The reading order `[info, nav, rest...]`. */
  function Spine(pages: seq<HtmlPage>): (r: seq<SpineItem>)
    requires pages != []
    ensures |r| == |pages| + 1 && r[0] == PageItem(pages[0]) && r[1] == NavItem
    ensures forall i :: 1 <= i < |pages| ==> r[i + 1] == PageItem(pages[i])
  {
    [PageItem(pages[0]), NavItem] + PageItems(pages[1..])
  }

  /** One document per record, with the record's title and file name. */
  predicate PagesFor(ps: seq<HtmlPage>, info: BookInfo, records: seq<Walker.PageRecord>, width: int) {
    |ps| == |records| && forall i :: 0 <= i < |records| ==> PageFor(ps[i], info, records[i], width)
  }

  /** The document carries the record's title and file name. */
  predicate PageFor(p: HtmlPage, info: BookInfo, r: Walker.PageRecord, width: int) {
    p.title == PageTitle(info, r) && p.fileName == PageFileNameOf(info, r, width)
  }

  // ---------------------------------------------------------------------------
  // The page loop of export_item

  /** What the page loop has built so far: the documents, the colour classes, `_sections` and `_sections_map`. */
  datatype Exported = Exported(pages: seq<HtmlPage>, palette: Palette, sections: seq<Link>, sectionsMap: map<string, Link>)

  /** How the loop turns a record into its document, given the palette before the page and the order of its styles. */
  type PageMaker = (Palette, Walker.PageRecord, seq<string>) -> HtmlPage

  /** The document maker of `export_item`: `ExportedPage` for the book, its depth map and its settings. */
  function MakePage(info: BookInfo, depthMap: map<string, int>, updateHamesh: bool,
                    dom: string -> PageDom, parse: string -> seq<string>, width: int): PageMaker
  {
    (p: Palette, r: Walker.PageRecord, order: seq<string>) => ExportedPage(p, info, r, order, depthMap, updateHamesh, dom, parse, width)
  }

  /**
   * One iteration: the page's document is appended, its colour styles are
   * interned, and its chapters are linked to its file.
   */
  function ExportStep(e: Exported, info: BookInfo, r: Walker.PageRecord, order: seq<string>, mk: PageMaker, width: int): Exported {
    var fileName := PageFileNameOf(info, r, width);
    var chapters := PageChapters(info, r);
    Exported(e.pages + [mk(e.palette, r, order)],
             Recolor(e.palette, r.text, order).0,
             e.sections + ChapterLinks(chapters, fileName),
             WithChapters(e.sectionsMap, chapters, fileName))
  }

  /** The state after the page loop over `records` (page `k`'s styles visited in the order `orders[k]`), started from `e`. */
  function ExportedBook(e: Exported, info: BookInfo, records: seq<Walker.PageRecord>, orders: seq<seq<string>>,
                        mk: PageMaker, width: int): Exported
    requires |orders| == |records|
    decreases |records|
  {
    if records == [] then e
    else
      var n := |records| - 1;
      ExportStep(ExportedBook(e, info, records[..n], orders[..n], mk, width), info, records[n], orders[n], mk, width)
  }

  /** A state that grew as `export_item`'s loop body grows it is the next state of the fold. */
  lemma {:induction false} ExportStepOf(e: Exported, e': Exported, info: BookInfo, r: Walker.PageRecord, order: seq<string>,
                                        depthMap: map<string, int>, updateHamesh: bool,
                                        dom: string -> PageDom, parse: string -> seq<string>, width: int)
    requires e'.pages == e.pages + [ExportedPage(e.palette, info, r, order, depthMap, updateHamesh, dom, parse, width)]
    requires e'.palette == Recolor(e.palette, r.text, order).0
    requires e'.sections == e.sections + ChapterLinks(PageChapters(info, r), PageFileNameOf(info, r, width))
    requires e'.sectionsMap == WithChapters(e.sectionsMap, PageChapters(info, r), PageFileNameOf(info, r, width))
    ensures e' == ExportStep(e, info, r, order, MakePage(info, depthMap, updateHamesh, dom, parse, width), width)
  {
    var mk := MakePage(info, depthMap, updateHamesh, dom, parse, width);
    assert mk(e.palette, r, order) == ExportedPage(e.palette, info, r, order, depthMap, updateHamesh, dom, parse, width);
  }

  /** The loop body of `export_item` moves the fold on by one record. */
  lemma {:induction false} ExportedBookNext(e: Exported, before: Exported, after: Exported, info: BookInfo,
                                            records: seq<Walker.PageRecord>, orders: seq<seq<string>>, i: nat,
                                            depthMap: map<string, int>, updateHamesh: bool,
                                            dom: string -> PageDom, parse: string -> seq<string>, width: int)
    requires |orders| == |records| && i < |records|
    requires before == ExportedBook(e, info, records[..i], orders[..i], MakePage(info, depthMap, updateHamesh, dom, parse, width), width)
    requires after.pages == before.pages + [ExportedPage(before.palette, info, records[i], orders[i], depthMap, updateHamesh, dom, parse, width)]
    requires after.palette == Recolor(before.palette, records[i].text, orders[i]).0
    requires after.sections == before.sections + ChapterLinks(PageChapters(info, records[i]), PageFileNameOf(info, records[i], width))
    requires after.sectionsMap == WithChapters(before.sectionsMap, PageChapters(info, records[i]), PageFileNameOf(info, records[i], width))
    ensures after == ExportedBook(e, info, records[..i + 1], orders[..i + 1], MakePage(info, depthMap, updateHamesh, dom, parse, width), width)
  {
    ExportStepOf(before, after, info, records[i], orders[i], depthMap, updateHamesh, dom, parse, width);
    ExportedBookSnoc(e, info, records, orders, MakePage(info, depthMap, updateHamesh, dom, parse, width), width, i);
  }

  lemma {:induction false} ExportedBookSnoc(e: Exported, info: BookInfo, records: seq<Walker.PageRecord>, orders: seq<seq<string>>,
                                            mk: PageMaker, width: int, i: nat)
    requires |orders| == |records| && i < |records|
    ensures ExportedBook(e, info, records[..i + 1], orders[..i + 1], mk, width)
      == ExportStep(ExportedBook(e, info, records[..i], orders[..i], mk, width), info, records[i], orders[i], mk, width)
  {
    assert records[..i + 1][..i] == records[..i] && orders[..i + 1][..i] == orders[..i];
  }

  /** The loop appends one document per record after those already there. */
  lemma {:induction false} ExportedBookGrows(e: Exported, info: BookInfo, records: seq<Walker.PageRecord>, orders: seq<seq<string>>,
                                             mk: PageMaker, width: int)
    requires |orders| == |records|
    ensures var b := ExportedBook(e, info, records, orders, mk, width);
      |b.pages| == |e.pages| + |records| && b.pages[..|e.pages|] == e.pages
    decreases |records|
  {
    if records != [] {
      var n := |records| - 1;
      var prev := ExportedBook(e, info, records[..n], orders[..n], mk, width);
      ExportedBookGrows(e, info, records[..n], orders[..n], mk, width);
      PrefixOfAppend(prev.pages, mk(prev.palette, records[n], orders[n]), |e.pages|);
    }
  }

  lemma {:induction false} PrefixOfAppend<T>(a: seq<T>, x: T, n: nat)
    requires n <= |a|
    ensures (a + [x])[..n] == a[..n]
  {
  }

  /** The loop over a prefix of the records builds a prefix of the documents. */
  lemma {:induction false} ExportedBookPrefix(e: Exported, info: BookInfo, records: seq<Walker.PageRecord>, orders: seq<seq<string>>,
                                              mk: PageMaker, width: int, j: nat)
    requires |orders| == |records| && j <= |records|
    ensures var b := ExportedBook(e, info, records, orders, mk, width);
      var a := ExportedBook(e, info, records[..j], orders[..j], mk, width);
      |a.pages| <= |b.pages| && b.pages[..|a.pages|] == a.pages
    decreases |records|
  {
    if j == |records| {
      assert records[..j] == records && orders[..j] == orders;
    } else {
      var n := |records| - 1;
      var init := records[..n];
      var io := orders[..n];
      var prev := ExportedBook(e, info, init, io, mk, width);
      var a := ExportedBook(e, info, records[..j], orders[..j], mk, width);
      var b := ExportedBook(e, info, records, orders, mk, width);
      var x := mk(prev.palette, records[n], orders[n]);
      assert b.pages == prev.pages + [x];
      ExportedBookPrefix(e, info, init, io, mk, width, j);
      assert init[..j] == records[..j] && io[..j] == orders[..j];
      assert |a.pages| <= |prev.pages| && prev.pages[..|a.pages|] == a.pages;
      PrefixOfAppend(prev.pages, x, |a.pages|);
    }
  }

  /** The last document is made from the last record with the palette the records before it left. */
  lemma {:induction false} ExportedBookLast(e: Exported, info: BookInfo, records: seq<Walker.PageRecord>, orders: seq<seq<string>>,
                                            mk: PageMaker, width: int)
    requires |orders| == |records| && records != []
    ensures var n := |records| - 1;
      var b := ExportedBook(e, info, records, orders, mk, width);
      |b.pages| == |e.pages| + |records|
      && b.pages[|e.pages| + n] == mk(ExportedBook(e, info, records[..n], orders[..n], mk, width).palette, records[n], orders[n])
  {
    var n := |records| - 1;
    ExportedBookGrows(e, info, records[..n], orders[..n], mk, width);
    ExportedBookGrows(e, info, records, orders, mk, width);
  }

  /**
   * The document of record `i` is made with the colour classes handed out
   * by the records before it.
   */
  lemma {:induction false} ExportedBookPageAt(e: Exported, info: BookInfo, records: seq<Walker.PageRecord>, orders: seq<seq<string>>,
                                              mk: PageMaker, width: int, i: nat)
    requires |orders| == |records| && i < |records|
    ensures var b := ExportedBook(e, info, records, orders, mk, width);
      && |e.pages| + i < |b.pages|
      && b.pages[|e.pages| + i] == mk(ExportedBook(e, info, records[..i], orders[..i], mk, width).palette, records[i], orders[i])
  {
    var pre := records[..i + 1];
    var po := orders[..i + 1];
    var a := ExportedBook(e, info, pre, po, mk, width);
    var b := ExportedBook(e, info, records, orders, mk, width);
    ExportedBookLast(e, info, pre, po, mk, width);
    ExportedBookPrefix(e, info, records, orders, mk, width, i + 1);
    assert pre[..i] == records[..i] && po[..i] == orders[..i];
    assert pre[i] == records[i] && po[i] == orders[i];
    assert b.pages[|e.pages| + i] == b.pages[..|a.pages|][|e.pages| + i] == a.pages[|e.pages| + i];
  }

  /** With the maker of `export_item`, every document of the loop carries its record's title and file name. */
  lemma {:induction false} ExportedBookTitles(e: Exported, info: BookInfo, records: seq<Walker.PageRecord>, orders: seq<seq<string>>,
                                              depthMap: map<string, int>, updateHamesh: bool,
                                              dom: string -> PageDom, parse: string -> seq<string>, width: int)
    requires |orders| == |records|
    ensures var b := ExportedBook(e, info, records, orders, MakePage(info, depthMap, updateHamesh, dom, parse, width), width);
      && |b.pages| == |e.pages| + |records| && b.pages[..|e.pages|] == e.pages
      && PagesFor(b.pages[|e.pages|..], info, records, width)
  {
    var mk := MakePage(info, depthMap, updateHamesh, dom, parse, width);
    var b := ExportedBook(e, info, records, orders, mk, width);
    ExportedBookGrows(e, info, records, orders, mk, width);
    if records == [] {
      assert b.pages[|e.pages|..] == [];
    } else {
      forall i | 0 <= i < |records|
        ensures PageFor(b.pages[|e.pages|..][i], info, records[i], width)
      {
        ExportedBookPageAt(e, info, records, orders, mk, width, i);
      }
    }
  }

  /** The colour styles of the records, page by page. */
  function StylesOf(records: seq<Walker.PageRecord>): seq<string>
    decreases |records|
  {
    if records == [] then [] else StylesOf(records[..|records| - 1]) + ColorStyles(records[|records| - 1].text)
  }

  /**
   * After the loop the palette is valid, its styles are the old ones plus
   * every style of every page, the classes already handed out are kept, and
   * the counter grew by the number of new styles.
   */
  lemma {:induction false} ExportedBookPalette(e: Exported, info: BookInfo, records: seq<Walker.PageRecord>, orders: seq<seq<string>>,
                                               mk: PageMaker, width: int)
    requires |orders| == |records| && ValidPalette(e.palette)
    requires forall k :: 0 <= k < |records| ==> EnumeratesStyles(orders[k], records[k].text)
    ensures var p := e.palette;
      var q := ExportedBook(e, info, records, orders, mk, width).palette;
      && ValidPalette(q)
      && q.classes.Keys == p.classes.Keys + (set s | s in StylesOf(records))
      && (forall s :: s in p.classes ==> q.classes[s] == p.classes[s])
      && q.last == p.last + |q.classes.Keys - p.classes.Keys|
    decreases |records|
  {
    if records != [] {
      var n := |records| - 1;
      var init := records[..n];
      var m := ExportedBook(e, info, init, orders[..n], mk, width).palette;
      ExportedBookPalette(e, info, init, orders[..n], mk, width);
      assert StylesOf(records) == StylesOf(init) + ColorStyles(records[n].text);
      ElementsOfConcat(StylesOf(init), ColorStyles(records[n].text));
      PaletteGrows(e.palette, m, records[n].text, orders[n], set s | s in StylesOf(init));
    }
  }

  /** One more page keeps the palette growing as the loop promises. */
  lemma {:induction false} PaletteGrows(p: Palette, m: Palette, html: string, order: seq<string>, before: set<string>)
    requires ValidPalette(m) && EnumeratesStyles(order, html)
    requires m.classes.Keys == p.classes.Keys + before
    requires forall s :: s in p.classes ==> m.classes[s] == p.classes[s]
    requires m.last == p.last + |m.classes.Keys - p.classes.Keys|
    ensures var q := Recolor(m, html, order).0;
      && ValidPalette(q)
      && q.classes.Keys == p.classes.Keys + (before + (set s | s in ColorStyles(html)))
      && (forall s :: s in p.classes ==> q.classes[s] == p.classes[s])
      && q.last == p.last + |q.classes.Keys - p.classes.Keys|
  {
    RecolorValid(m, html, order);
    RecolorPalette(m, html, order);
    var q := Recolor(m, html, order).0;
    GrowsTwice(p.classes.Keys, m.classes.Keys, q.classes.Keys, before, set s | s in ColorStyles(html));
  }

  lemma {:induction false} ElementsOfConcat<T>(a: seq<T>, b: seq<T>)
    ensures (set x | x in a + b) == (set x | x in a) + (set x | x in b)
  {
  }

  /** What grows in two steps grows by both steps, and its count by the sum of the counts. */
  lemma {:induction false} GrowsTwice<T>(a: set<T>, b: set<T>, c: set<T>, x: set<T>, y: set<T>)
    requires b == a + x && c == b + y
    ensures c == a + (x + y) && |c - a| == |c - b| + |b - a|
  {
    assert c - a == (c - b) + (b - a);
    assert (c - b) * (b - a) == {};
  }

  /** The chapters of the records, page by page. */
  function ChaptersOf(info: BookInfo, records: seq<Walker.PageRecord>): seq<string>
    decreases |records|
  {
    if records == [] then [] else ChaptersOf(info, records[..|records| - 1]) + PageChapters(info, records[|records| - 1])
  }

  /** No record after `k` lists the chapter `c`. */
  predicate LastListing(info: BookInfo, records: seq<Walker.PageRecord>, k: nat, c: string) {
    k < |records| && c in PageChapters(info, records[k])
    && forall l :: k < l < |records| ==> c !in PageChapters(info, records[l])
  }

  /**
   * After the loop the chapter map holds the old titles and every chapter of
   * every page; a chapter links to the last page that lists it, and a title
   * no page lists keeps its old link.
   */
  lemma {:induction false} ExportedBookChapters(e: Exported, info: BookInfo, records: seq<Walker.PageRecord>, orders: seq<seq<string>>,
                                                mk: PageMaker, width: int)
    requires |orders| == |records|
    ensures var m := ExportedBook(e, info, records, orders, mk, width).sectionsMap;
      && m.Keys == e.sectionsMap.Keys + (set c | c in ChaptersOf(info, records))
      && (forall c :: c in e.sectionsMap && c !in ChaptersOf(info, records) ==> m[c] == e.sectionsMap[c])
      && (forall k: nat, c :: LastListing(info, records, k, c) ==>
            var f := PageFileNameOf(info, records[k], width); c in m && m[c] == Link(f, c, ChapterUid(f)))
    decreases |records|
  {
    if records != [] {
      var n := |records| - 1;
      var init := records[..n];
      var m0 := ExportedBook(e, info, init, orders[..n], mk, width).sectionsMap;
      var chapters := PageChapters(info, records[n]);
      var f := PageFileNameOf(info, records[n], width);
      ExportedBookChapters(e, info, init, orders[..n], mk, width);
      WithChaptersLinks(m0, chapters, f);
      var m := WithChapters(m0, chapters, f);
      assert ChaptersOf(info, records) == ChaptersOf(info, init) + chapters;
      ElementsOfConcat(ChaptersOf(info, init), chapters);
      forall k: nat, c | LastListing(info, records, k, c)
        ensures var g := PageFileNameOf(info, records[k], width); c in m && m[c] == Link(g, c, ChapterUid(g))
      {
        if k < n {
          assert c !in chapters by {
            assert k < n < |records|;
          }
          assert init[k] == records[k];
          forall l | k < l < |init| ensures c !in PageChapters(info, init[l]) {
            assert init[l] == records[l];
          }
          assert LastListing(info, init, k, c);
          assert c in m0 && m[c] == m0[c];
        } else {
          assert k == n && c in chapters;
          assert m[c] == Link(f, c, ChapterUid(f));
        }
      }
    }
  }

  // ---------------------------------------------------------------------------
  // The exporter

  class EpubExporter {
    var updateHamesh: bool
    var colorStylesMap: map<string, string>   // `_color_styles_map`
    var lastColorId: nat                      // `_last_color_id`
    var css: string                           // `_default_css.content`
    var sections: seq<Link>
    var sectionsMap: map<string, Link>
    var pages: seq<HtmlPage>
    var zfillLength: int
    var bookToc: seq<TocEntry>                // `book.toc`
    var spine: seq<SpineItem>                 // `book.spine`

    function CurrentPalette(): Palette
      reads this
    {
      Palette(colorStylesMap, lastColorId, css)
    }

    /** The part of the state the page loop builds. */
    function State(): Exported
      reads this
    {
      Exported(pages, CurrentPalette(), sections, sectionsMap)
    }

    /** The colour classes are `color-1` ... `color-last`, one per style. */
    predicate Valid()
      reads this
    {
      ValidPalette(CurrentPalette())
    }

    constructor(updateHamesh: bool)
      ensures this.updateHamesh == updateHamesh
      ensures colorStylesMap == map[] && lastColorId == 0 && css == ""
      ensures sections == [] && sectionsMap == map[] && pages == [] && zfillLength == 0
      ensures bookToc == [] && spine == []
      ensures Valid()
    {
      this.updateHamesh := updateHamesh;
      colorStylesMap := map[];
      lastColorId := 0;
      css := "";
      sections := [];
      sectionsMap := map[];
      pages := [];
      zfillLength := 0;
      bookToc := [];
      spine := [];
    }

    /** Installs the default style sheet; the book metadata it also sets is not modelled. */
    method StartExporting()
      requires Valid()
      modifies this
      ensures css == EpubCss && Valid()
      ensures colorStylesMap == old(colorStylesMap) && lastColorId == old(lastColorId)
      ensures updateHamesh == old(updateHamesh) && sections == old(sections) && sectionsMap == old(sectionsMap)
      ensures pages == old(pages) && zfillLength == old(zfillLength) && bookToc == old(bookToc) && spine == old(spine)
    {
      css := EpubCss;
    }

    /** The body of the loop of `replace_color_styles_with_class` that finds or hands out a class. */
    method InternStyle(style: string) returns (colorClass: string)
      requires Valid()
      modifies this
      ensures Valid()
      ensures CurrentPalette() == Intern(old(CurrentPalette()), style) && colorClass == colorStylesMap[style]
      ensures updateHamesh == old(updateHamesh) && sections == old(sections) && sectionsMap == old(sectionsMap)
      ensures pages == old(pages) && zfillLength == old(zfillLength) && bookToc == old(bookToc) && spine == old(spine)
    {
      InternStep(CurrentPalette(), style);
      colorClass := if style in colorStylesMap then colorStylesMap[style] else "";
      if colorClass == "" {
        lastColorId := lastColorId + 1;
        colorClass := ColorClass(lastColorId);
        colorStylesMap := colorStylesMap[style := colorClass];
        css := css + CssRule(colorClass, style);
      }
    }

    /** `replace_color_styles_with_class`, the styles visited in the order `order`. */
    method ReplaceColorStylesWithClass(html: string, order: seq<string>) returns (r: string)
      requires Valid() && EnumeratesStyles(order, html)
      modifies this
      ensures Valid()
      ensures (CurrentPalette(), r) == Recolor(old(CurrentPalette()), html, order)
      ensures updateHamesh == old(updateHamesh) && sections == old(sections) && sectionsMap == old(sectionsMap)
      ensures pages == old(pages) && zfillLength == old(zfillLength) && bookToc == old(bookToc) && spine == old(spine)
    {
      if ColorStyles(html) == [] {
        return html;
      }
      ghost var p := CurrentPalette();
      r := html;
      var i := 0;
      while i < |order|
        invariant 0 <= i <= |order| && Valid()
        invariant CurrentPalette() == Interned(p, order[..i]) && r == Recolored(p, html, order[..i])
        invariant updateHamesh == old(updateHamesh) && sections == old(sections) && sectionsMap == old(sectionsMap)
        invariant pages == old(pages) && zfillLength == old(zfillLength) && bookToc == old(bookToc) && spine == old(spine)
      {
        assert order[..i + 1][..i] == order[..i];
        var colorClass := InternStyle(order[i]);
        r := ReplaceAll(r, StyleAttribute(order[i]), ClassAttribute(colorClass));
        i := i + 1;
      }
      assert order[..i] == order;
    }

    /** `add_chapter`: a link to the page for every chapter starting on it. */
    method AddChapter(chapters: seq<string>, fileName: string)
      modifies this
      ensures sections == old(sections) + ChapterLinks(chapters, fileName)
      ensures sectionsMap == WithChapters(old(sectionsMap), chapters, fileName)
      ensures updateHamesh == old(updateHamesh) && CurrentPalette() == old(CurrentPalette())
      ensures pages == old(pages) && zfillLength == old(zfillLength) && bookToc == old(bookToc) && spine == old(spine)
    {
      var i := 0;
      while i < |chapters|
        invariant 0 <= i <= |chapters|
        invariant sections == old(sections) + ChapterLinks(chapters[..i], fileName)
        invariant sectionsMap == WithChapters(old(sectionsMap), chapters[..i], fileName)
        invariant updateHamesh == old(updateHamesh) && CurrentPalette() == old(CurrentPalette())
        invariant pages == old(pages) && zfillLength == old(zfillLength) && bookToc == old(bookToc) && spine == old(spine)
      {
        assert chapters[..i + 1][..i] == chapters[..i];
        var link := Link(fileName, chapters[i], ReplaceAll(fileName, ".xhtml", ""));
        sections := sections + [link];
        sectionsMap := sectionsMap[chapters[i] := link];
        i := i + 1;
      }
      assert chapters[..i] == chapters;
    }

    /** `_update_toc_list` on a copy of the tree. */
    method UpdateTocList(toc: seq<Item>) returns (r: seq<TocEntry>)
      ensures r == TocLinks(toc, sectionsMap)
      decreases toc
    {
      r := [];
      var i := 0;
      while i < |toc|
        invariant 0 <= i <= |toc|
        invariant r + TocLinks(toc[i..], sectionsMap) == TocLinks(toc, sectionsMap)
        decreases |toc| - i
      {
        assert toc[i..][1..] == toc[i + 1..];
        var entry;
        match toc[i] {
          case Leaf(_, text) =>
            entry := Section(if text in sectionsMap then Some(sectionsMap[text]) else None);
          case Nested(xs) =>
            assert toc[i] in toc;
            var es := UpdateTocList(xs);
            entry := Entries(es);
        }
        AppendAssoc(r, [entry], TocLinks(toc[i + 1..], sectionsMap));
        r := r + [entry];
        i := i + 1;
      }
    }

    /** `generate_toc`: the table of contents and the reading order; the NCX and navigation documents are not modelled. */
    method GenerateToc(toc: seq<Item>)
      requires pages != []
      modifies this
      ensures updateHamesh == old(updateHamesh) && CurrentPalette() == old(CurrentPalette())
      ensures sections == old(sections) && sectionsMap == old(sectionsMap) && pages == old(pages) && zfillLength == old(zfillLength)
      ensures bookToc == [Section(Some(InfoLink)), Section(Some(NavLink))] + TocLinks(toc, sectionsMap)
      ensures spine == Spine(pages)
    {
      var tocList := UpdateTocList(toc);
      bookToc := [Section(Some(InfoLink)), Section(Some(NavLink))] + tocList;
      spine := [PageItem(pages[0]), NavItem] + PageItems(pages[1..]);
    }

    /** One iteration of the page loop of `export_item`. */
    method ExportPage(info: BookInfo, record: Walker.PageRecord, order: seq<string>, depthMap: map<string, int>,
                      dom: string -> PageDom, parse: string -> seq<string>)
      requires Valid() && EnumeratesStyles(order, record.text)
      modifies this
      ensures Valid()
      ensures CurrentPalette() == Recolor(old(CurrentPalette()), record.text, order).0
      ensures pages == old(pages) + [ExportedPage(old(CurrentPalette()), info, record, order, depthMap,
                                                  updateHamesh, dom, parse, zfillLength)]
      ensures sections == old(sections) + ChapterLinks(PageChapters(info, record), PageFileNameOf(info, record, zfillLength))
      ensures sectionsMap == WithChapters(old(sectionsMap), PageChapters(info, record), PageFileNameOf(info, record, zfillLength))
      ensures updateHamesh == old(updateHamesh) && zfillLength == old(zfillLength) && bookToc == old(bookToc) && spine == old(spine)
    {
      var chapters := PageChapters(info, record);
      var pageTitle := if chapters != [] then chapters[0] else "";
      var volume := PageVolume(info.volumes, record.page);
      var fileName := PageFileName(volume.1, volume.0, record.pageNumber, zfillLength);
      var footer := Footer(volume.1, record.page);
      var text := ReplaceColorStylesWithClass(record.text, order);
      text := ExpandLigatures(text);
      if chapters != [] {
        text := ReplaceTitlesWithHeaders(chapters, text, depthMap);
        AddChapter(chapters, fileName);
      }
      if updateHamesh {
        var d := dom(text);
        text := UpdateHamesh(d.div, d.blocks, d.paragraphs, parse);
      }
      pages := pages + [HtmlPage(pageTitle, fileName, PageContent(text, footer))];
    }

    /** The body of the page loop: record `i` is exported and the fold moves on by one. */
    method ExportNextPage(info: BookInfo, records: seq<Walker.PageRecord>, orders: seq<seq<string>>, i: nat,
                          depthMap: map<string, int>, dom: string -> PageDom, parse: string -> seq<string>, ghost e: Exported)
      requires Valid() && |orders| == |records| && i < |records| && EnumeratesStyles(orders[i], records[i].text)
      requires State() == ExportedBook(e, info, records[..i], orders[..i], MakePage(info, depthMap, updateHamesh, dom, parse, zfillLength), zfillLength)
      modifies this
      ensures Valid() && updateHamesh == old(updateHamesh) && zfillLength == old(zfillLength)
      ensures bookToc == old(bookToc) && spine == old(spine)
      ensures State() == ExportedBook(e, info, records[..i + 1], orders[..i + 1], MakePage(info, depthMap, updateHamesh, dom, parse, zfillLength), zfillLength)
    {
      ghost var before := State();
      ExportPage(info, records[i], orders[i], depthMap, dom, parse);
      ExportedBookNext(e, before, State(), info, records, orders, i, depthMap, updateHamesh, dom, parse, zfillLength);
    }

    /** The page loop of `export_item`: one document per record, in order. */
    method ExportPages(info: BookInfo, records: seq<Walker.PageRecord>, orders: seq<seq<string>>,
                       depthMap: map<string, int>, dom: string -> PageDom, parse: string -> seq<string>)
      requires Valid() && |orders| == |records|
      requires forall i :: 0 <= i < |records| ==> EnumeratesStyles(orders[i], records[i].text)
      modifies this
      ensures Valid() && updateHamesh == old(updateHamesh) && zfillLength == old(zfillLength)
      ensures bookToc == old(bookToc) && spine == old(spine)
      ensures State() == ExportedBook(old(State()), info, records, orders, MakePage(info, depthMap, updateHamesh, dom, parse, zfillLength), zfillLength)
    {
      ghost var e := State();
      ghost var mk := MakePage(info, depthMap, updateHamesh, dom, parse, zfillLength);
      var i := 0;
      while i < |records|
        invariant 0 <= i <= |records| && Valid()
        invariant zfillLength == old(zfillLength) && updateHamesh == old(updateHamesh)
        invariant bookToc == old(bookToc) && spine == old(spine)
        invariant State() == ExportedBook(e, info, records[..i], orders[..i], mk, zfillLength)
      {
        ExportNextPage(info, records, orders, i, depthMap, dom, parse, e);
        i := i + 1;
      }
      assert records[..i] == records && orders[..i] == orders;
    }

    /**
     * `export_item`: the information page, then the page loop over the
     * records (what it builds is `ExportedBook`, whose documents, palette
     * and chapter map the `ExportedBook...` lemmas describe), then the table
     * of contents over the resulting chapter map and the reading order. An
     * empty page list fails at `pages[-1]` (an `IndexError`) before anything
     * changes; a missing `url` fails at `info['url']` (a `KeyError`) once the
     * zero-fill width is set and before any document exists.
     */
    method ExportItem(info: BookInfo, records: seq<Walker.PageRecord>, orders: seq<seq<string>>,
                      dom: string -> PageDom, parse: string -> seq<string>) returns (error: Option<ExportError>)
      requires Valid() && |orders| == |records|
      requires forall i :: 0 <= i < |records| ==> EnumeratesStyles(orders[i], records[i].text)
      modifies this
      ensures error == ExportFailure(info, records)
      ensures error == Some(IndexError) <==> records == []
      ensures error == Some(KeyError("url")) <==> records != [] && info.url.None?
      ensures error.Some? ==> State() == old(State()) && bookToc == old(bookToc) && spine == old(spine)
      ensures error == Some(IndexError) ==> zfillLength == old(zfillLength)
      ensures Valid() && updateHamesh == old(updateHamesh)
      ensures records != [] ==> zfillLength == ZFillLength(records)
      ensures error.None? ==>
        && State() == ExportedBook(Exported(old(pages) + [InfoPage(info)], old(CurrentPalette()), old(sections), old(sectionsMap)),
                                   info, records, orders, MakePage(info, DepthMapOf(info.toc, map[], 1), updateHamesh, dom, parse, zfillLength), zfillLength)
        && bookToc == [Section(Some(InfoLink)), Section(Some(NavLink))] + TocLinks(info.toc, sectionsMap)
        && spine == Spine(pages)
    {
      if records == [] {
        return Some(IndexError);
      }
      zfillLength := |IntToString(records[|records| - 1].pageNumber)| + 1;
      if info.url.None? {
        return Some(KeyError("url"));
      }
      error := None;
      pages := pages + [InfoPage(info)];
      ghost var e := State();
      var depthMap := CreateTocDepthMap(info.toc, map[], 1);
      ExportPages(info, records, orders, depthMap, dom, parse);
      ExportedBookGrows(e, info, records, orders, MakePage(info, depthMap, updateHamesh, dom, parse, zfillLength), zfillLength);
      GenerateToc(info.toc);
    }
  }
}
