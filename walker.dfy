/**
 * The book spider's page walker (shamela/spiders/book.py): the `data`
 * accumulator built by `parse`, narrowed by `_update_data_for_one_volume`,
 * and advanced one page response at a time by `parse_book_text`.
 *
 * Each response is abstracted as a `PageView`: the values the CSS selectors
 * would read from it. The step's outcome is an `Action`: follow the next-page
 * link, jump to a volume's first page, emit the finished book, or fail with
 * the exception the Python code would raise.
 */
module Walker {
  import opened Common
  import opened Toc
  import opened Volumes

  /** The attribute stripped from a page's content (`PARENT_DIV_CLASS_PATTERN`). */
  const ParentDivClass: string := " class=\"nass margin-top-10\""

  /** One entry of `data['text']`. */
  datatype PageRecord = PageRecord(pageNumber: int, page: int, text: string)

  /** A link of the volume menu: its label and the page number its href carries, if any. */
  datatype MenuLink = MenuLink(name: string, target: Option<int>)

  /** What `parse_book_text` reads from one response. */
  datatype PageView = PageView(
    pageNumber: int,                  // the last path segment of the URL
    pageField: Option<int>,           // the page-number field's value, when present
    lastPageTarget: Option<int>,      // the number in the last-page link's href, when there is one
    hasLastPage: bool,                // whether the last-page link exists
    volumeMenu: Option<seq<MenuLink>>, // the volume menu's links, when the menu exists
    volumeButton: Option<string>,     // the current volume button's text, when present
    content: string)                  // the page content, copy button removed

  datatype WalkError =
    | LastPageUnreadable   // `int(None)` on the last-page href
    | VolumeLinkUnreadable // `int(None)` on a volume link's href
    | VolumeNotFound       // the `ValueError` for a volume matching no menu label
    | VolumeButtonMissing  // `.strip()` on a missing volume button text
    | UnknownVolume        // `KeyError` looking the requested volume up

  datatype Action = Follow | Jump(page: int) | Emit | Fail(error: WalkError)

  /** The `data` accumulator: `info` fields and `text`. */
  datatype Book = Book(
    title: string,
    author: string,
    about: string,
    toc: seq<Item>,
    pageChapters: seq<(int, seq<string>)>,
    allPages: Option<int>,
    volumes: seq<(string, Range)>,
    pages: Option<int>,
    text: seq<PageRecord>)

  /** Page content with the parent div's class attribute removed. */
  function PageText(content: string): string {
    ReplaceAll(content, ParentDivClass, "")
  }

  /** The links after the menu's first one (`[1:]`). */
  function VolumeLinks(menu: seq<MenuLink>): seq<MenuLink> {
    if menu == [] then [] else menu[1..]
  }

  /** The volume dict built from the menu links; `None` when a link has no readable page. */
  function ReadVolumes(links: seq<MenuLink>): (r: Option<seq<(string, int)>>)
    ensures r.Some? <==> forall i :: 0 <= i < |links| ==> links[i].target.Some?
    ensures r.Some? ==> DistinctKeys(r.value)
  {
    if links == [] then Some([])
    else
      var last := links[|links| - 1];
      match ReadVolumes(links[..|links| - 1])
      case None => None
      case Some(m) =>
        if last.target.None? then None
        else
          Some(Put(m, last.name, last.target.value))
  }

  /** The requested volume occurs in some menu label after the first. */
  predicate VolumeListed(menu: Option<seq<MenuLink>>, vol: string) {
    menu.Some? && exists i | 1 <= i < |menu.value| :: Contains(menu.value[i].name, vol)
  }

  /** `_update_data_for_one_volume`. */
  function Narrow(b: Book, vol: string, range: Range): Book {
    b.(pageChapters := NarrowChapters(b.pageChapters, range.0, range.1),
       toc := CutToc(b.toc, range.0, range.1),
       volumes := [(vol, range)],
       title := b.title + " - " + vol)
  }

  /**
   * What narrowing to one volume keeps: exactly the chapter-index pages
   * inside the range, a table of contents whose every leaf is inside it, the
   * single volume entry, the title with the volume appended, and nothing else
   * changed.
   */
  lemma {:induction false} NarrowToOneVolume(b: Book, vol: string, range: Range)
    ensures var n := Narrow(b, vol, range);
      && (forall e :: e in n.pageChapters <==> e in b.pageChapters && range.0 <= e.0 <= range.1)
      && CutShape(n.toc, range.0, range.1)
      && IsSubsequence(Leaves(n.toc), Leaves(b.toc))
      && n.volumes == [(vol, range)]
      && n.title == b.title + " - " + vol
      && n.text == b.text && n.author == b.author && n.about == b.about
      && n.allPages == b.allPages && n.pages == b.pages
  {
    CutTocShape(b.toc, range.0, range.1);
    CutTocKeepsOrder(b.toc, range.0, range.1);
  }

  /** The record appended for a page. */
  function Record(v: PageView): PageRecord {
    PageRecord(v.pageNumber, v.pageField.GetOr(0), PageText(v.content))
  }

  /** `parse_book_text` on one response, as a transition of the accumulator. */
  function Step(b: Book, v: PageView, vol: string): (Book, Action) {
    if v.pageNumber != 1 then Continue(b, v, vol) else FirstPage(b, v, vol)
  }

  /** Page 1: read the page count and the volumes, and check the requested volume. */
  function FirstPage(b: Book, v: PageView, vol: string): (Book, Action) {
    if v.lastPageTarget.None? then (b, Fail(LastPageUnreadable))
    else
      var b1 := b.(allPages := v.lastPageTarget, volumes := []);
      var read := if v.volumeMenu.Some? then ReadVolumes(VolumeLinks(v.volumeMenu.value)) else Some([]);
      if read.None? then (b1, Fail(VolumeLinkUnreadable))
      else
        var b2 := if v.volumeMenu.Some? then b1.(volumes := StartEndPages(read.value)) else b1;
        if vol == "" then Continue(b2, v, vol)
        else if !VolumeListed(v.volumeMenu, vol) then (b2, Fail(VolumeNotFound))
        else if v.volumeButton.None? then (b2, Fail(VolumeButtonMissing))
        else if vol == Strip(v.volumeButton.value) then Continue(b2, v, vol)
        else if Get(b2.volumes, vol).None? then (b2, Fail(UnknownVolume))
        else (b2, Jump(Get(b2.volumes, vol).value.0))
  }

  /** The part of the step after the first-page checks. */
  function Continue(b: Book, v: PageView, vol: string): (Book, Action) {
    if vol != "" && Get(b.volumes, vol).None? then (b, Fail(UnknownVolume))
    else if vol != "" && v.pageNumber > Get(b.volumes, vol).value.1 then
      var n := Narrow(b, vol, Get(b.volumes, vol).value);
      (n.(pages := Some(|n.text|)), Emit)
    else
      var b1 := b.(text := b.text + [Record(v)]);
      if v.hasLastPage then (b1, Follow)
      else
        var b2 := if vol != "" && v.pageNumber == Get(b.volumes, vol).value.1
          then Narrow(b1, vol, Get(b.volumes, vol).value) else b1;
        (b2.(pages := Some(|b2.text|)), Emit)
  }

  /** The `data` dict shared by all callbacks of one crawl. */
  class BookData {
    var title: string
    var author: string
    var about: string
    var toc: seq<Item>
    var pageChapters: seq<(int, seq<string>)>
    var allPages: Option<int>
    var volumes: seq<(string, Range)>
    var pages: Option<int>
    var text: seq<PageRecord>

    function State(): Book
      reads this
    {
      Book(title, author, about, toc, pageChapters, allPages, volumes, pages, text)
    }

    /** `parse`: the book's index page gives the initial `info`. */
    constructor(bookTitle: string, bookAuthor: string, content: string,
                tocEntries: seq<RawEntry>, chapterLinks: seq<(int, string)>)
      ensures State() == Book(bookTitle, bookAuthor, PageText(content), ParseToc(tocEntries),
                              ChapterIndex(chapterLinks), None, [], None, [])
    {
      var chapters := ChaptersByPage(chapterLinks);
      title := bookTitle;
      author := bookAuthor;
      about := PageText(content);
      toc := ParseToc(tocEntries);
      pageChapters := chapters;
      allPages := None;
      volumes := [];
      pages := None;
      text := [];
    }

    /** `_update_data_for_one_volume`. */
    method UpdateDataForOneVolume(vol: string, range: Range)
      modifies this
      ensures State() == Narrow(old(State()), vol, range)
    {
      pageChapters := NarrowChapters(pageChapters, range.0, range.1);
      toc := CutToc(toc, range.0, range.1);
      volumes := [(vol, range)];
      title := title + " - " + vol;
    }

    /** The volume dict of `parse_book_text`, read link by link; `None` at the first unreadable href. */
    static method ReadVolumeLinks(links: seq<MenuLink>) returns (r: Option<seq<(string, int)>>)
      ensures r == ReadVolumes(links)
    {
      var found: seq<(string, int)> := [];
      var i := 0;
      while i < |links|
        invariant 0 <= i <= |links|
        invariant ReadVolumes(links[..i]) == Some(found)
      {
        assert links[..i + 1][..i] == links[..i];
        if links[i].target.None? {
          return None;
        }
        found := Put(found, links[i].name, links[i].target.value);
        i := i + 1;
      }
      assert links[..|links|] == links;
      return Some(found);
    }

    /** `parse_book_text`. */
    method ParseBookText(v: PageView, vol: string) returns (act: Action)
      modifies this
      ensures (State(), act) == Step(old(State()), v, vol)
    {
      var pageNumber := v.pageNumber;
      var page := v.pageField.GetOr(0);
      if pageNumber == 1 {
        if v.lastPageTarget.None? {
          return Fail(LastPageUnreadable);
        }
        allPages := v.lastPageTarget;
        volumes := [];
        if v.volumeMenu.Some? {
          var found := ReadVolumeLinks(VolumeLinks(v.volumeMenu.value));
          if found.None? {
            return Fail(VolumeLinkUnreadable);
          }
          volumes := GetStartEndPages(found.value);
        }
        if vol != "" {
          if !VolumeListed(v.volumeMenu, vol) {
            return Fail(VolumeNotFound);
          }
          if v.volumeButton.None? {
            return Fail(VolumeButtonMissing);
          }
          if vol != Strip(v.volumeButton.value) {
            var range := Get(volumes, vol);
            if range.None? {
              return Fail(UnknownVolume);
            }
            return Jump(range.value.0);
          }
        }
      }
      var range: Option<Range> := None;
      if vol != "" {
        range := Get(volumes, vol);
        if range.None? {
          return Fail(UnknownVolume);
        }
        if pageNumber > range.value.1 {
          UpdateDataForOneVolume(vol, range.value);
          pages := Some(|text|);
          return Emit;
        }
      }
      text := text + [PageRecord(pageNumber, page, PageText(v.content))];
      if !v.hasLastPage {
        if vol != "" && pageNumber == range.value.1 {
          UpdateDataForOneVolume(vol, range.value);
        }
        pages := Some(|text|);
        return Emit;
      }
      return Follow;
    }
  }

  // ---------------------------------------------------------------------------
  // Properties of one step

  /** On page 1, a requested volume that no menu label after the first matches is an error. */
  lemma {:induction false} StepRejectsUnlistedVolume(b: Book, v: PageView, vol: string)
    requires v.pageNumber == 1 && v.lastPageTarget.Some?
    requires v.volumeMenu.Some? ==> ReadVolumes(VolumeLinks(v.volumeMenu.value)).Some?
    requires vol != "" && !VolumeListed(v.volumeMenu, vol)
    ensures Step(b, v, vol).1 == Fail(VolumeNotFound)
    ensures Step(b, v, vol).0.text == b.text
  {
  }

  /**
   * On page 1, when the current volume is not the requested one, the step
   * jumps to the requested volume's first page and appends nothing.
   */
  lemma {:induction false} StepJumpsToVolumeStart(b: Book, v: PageView, vol: string, range: Range)
    requires v.pageNumber == 1 && v.lastPageTarget.Some? && v.volumeMenu.Some?
    requires ReadVolumes(VolumeLinks(v.volumeMenu.value)).Some?
    requires vol != "" && VolumeListed(v.volumeMenu, vol)
    requires v.volumeButton.Some? && Strip(v.volumeButton.value) != vol
    requires Get(StartEndPages(ReadVolumes(VolumeLinks(v.volumeMenu.value)).value), vol) == Some(range)
    ensures Step(b, v, vol) ==
      (b.(allPages := v.lastPageTarget,
          volumes := StartEndPages(ReadVolumes(VolumeLinks(v.volumeMenu.value)).value)), Jump(range.0))
  {
  }

  /**
   * Past the requested volume's last page (by URL page number), the step
   * emits the narrowed book without appending the page, and `pages` is the
   * number of records.
   */
  lemma {:induction false} StepEmitsPastVolumeEnd(b: Book, v: PageView, vol: string, range: Range)
    requires v.pageNumber != 1 && vol != ""
    requires Get(b.volumes, vol) == Some(range) && v.pageNumber > range.1
    ensures Step(b, v, vol).1 == Emit
    ensures Step(b, v, vol).0 == Narrow(b, vol, range).(pages := Some(|b.text|))
  {
  }

  /**
   * Otherwise exactly one record is appended, with page 0 when the field is
   * missing; the step follows the next page while a last-page link exists,
   * and else emits with `pages` set, narrowed only on the volume's last page.
   */
  lemma {:induction false} StepAppendsRecord(b: Book, v: PageView, vol: string)
    requires v.pageNumber != 1
    requires vol != "" ==> Get(b.volumes, vol).Some? && v.pageNumber <= Get(b.volumes, vol).value.1
    ensures var (b', act) := Step(b, v, vol);
      && Record(v) == PageRecord(v.pageNumber, if v.pageField.Some? then v.pageField.value else 0, PageText(v.content))
      && (act == Follow <==> v.hasLastPage)
      && (act == Follow ==> b' == b.(text := b.text + [Record(v)]))
      && (act != Follow ==> act == Emit && b'.pages == Some(|b.text| + 1))
      && (act != Follow ==>
            b' == (if vol != "" && v.pageNumber == Get(b.volumes, vol).value.1
                   then Narrow(b, vol, Get(b.volumes, vol).value) else b)
                  .(text := b.text + [Record(v)], pages := Some(|b.text| + 1)))
  {
  }

  /** Whatever happens, the step appends at most the page's own record, and emits only with `pages` set. */
  lemma {:induction false} StepTextGrowsByAtMostOne(b: Book, v: PageView, vol: string)
    ensures var (b', act) := Step(b, v, vol);
      && (b'.text == b.text || b'.text == b.text + [Record(v)])
      && (act == Emit ==> b'.pages == Some(|b'.text|))
      && (act.Fail? || act.Jump? ==> b'.text == b.text)
  {
    if v.pageNumber != 1 {
      ContinueTextGrowsByAtMostOne(b, v, vol);
    } else if v.lastPageTarget.Some? {
      var b1 := b.(allPages := v.lastPageTarget, volumes := []);
      var read := if v.volumeMenu.Some? then ReadVolumes(VolumeLinks(v.volumeMenu.value)) else Some([]);
      if read.Some? {
        var b2 := if v.volumeMenu.Some? then b1.(volumes := StartEndPages(read.value)) else b1;
        ContinueTextGrowsByAtMostOne(b2, v, vol);
      }
    }
  }

  lemma {:induction false} ContinueTextGrowsByAtMostOne(b: Book, v: PageView, vol: string)
    ensures var (b', act) := Continue(b, v, vol);
      && (b'.text == b.text || b'.text == b.text + [Record(v)])
      && (act == Emit ==> b'.pages == Some(|b'.text|))
      && (act.Fail? || act.Jump? ==> b'.text == b.text)
  {
  }

  // ---------------------------------------------------------------------------
  // Properties of a whole walk

  datatype Outcome = Emitted | Failed(error: WalkError) | Unfinished

  /** Feeding responses one by one: follows and jumps consume the next response. */
  function Walk(b: Book, views: seq<PageView>, vol: string): (Book, Outcome)
    decreases |views|
  {
    if views == [] then (b, Unfinished)
    else
      var (b1, act) := Step(b, views[0], vol);
      match act
      case Follow => Walk(b1, views[1..], vol)
      case Jump(_) => Walk(b1, views[1..], vol)
      case Emit => (b1, Emitted)
      case Fail(e) => (b1, Failed(e))
  }

  function Records(views: seq<PageView>): (r: seq<PageRecord>)
    ensures |r| == |views|
  {
    seq(|views|, i requires 0 <= i < |views| => Record(views[i]))
  }

  /** Pages after the first: every one but the last has a last-page link. */
  predicate LaterPages(views: seq<PageView>) {
    && |views| > 0
    && (forall i :: 0 <= i < |views| ==> views[i].pageNumber != 1)
    && (forall i :: 0 <= i < |views| - 1 ==> views[i].hasLastPage)
  }

  lemma {:induction false} WalkAppendsLaterPages(b: Book, views: seq<PageView>)
    requires LaterPages(views) && !views[|views| - 1].hasLastPage
    ensures Walk(b, views, "") ==
      (b.(text := b.text + Records(views), pages := Some(|b.text| + |views|)), Emitted)
    decreases |views|
  {
    var b1 := b.(text := b.text + [Record(views[0])]);
    if |views| > 1 {
      assert views[0].hasLastPage;
      assert Step(b, views[0], "") == (b1, Follow);
      assert LaterPages(views[1..]);
      WalkAppendsLaterPages(b1, views[1..]);
      assert Records(views) == [Record(views[0])] + Records(views[1..]);
      assert b.text + Records(views) == b1.text + Records(views[1..]);
      assert Walk(b, views, "") == Walk(b1, views[1..], "");
    } else {
      assert Step(b, views[0], "") == (b1.(pages := Some(|b.text| + 1)), Emit);
      assert Records(views) == [Record(views[0])];
    }
  }

  /**
   * Page 1 without a readable last-page link ends the crawl with the
   * `TypeError` of `int(None)`, whatever follows and whatever volume is asked for.
   */
  lemma {:induction false} WalkFirstPageUnreadable(b: Book, views: seq<PageView>, vol: string)
    requires |views| > 0 && views[0].pageNumber == 1 && views[0].lastPageTarget.None?
    ensures Walk(b, views, vol) == (b, Failed(LastPageUnreadable))
  {
  }

  /**
   * Without a requested volume, walking page 1 and then later pages up to
   * the first without a last-page link emits the book holding one record per
   * page, in order, with `pages` their number and the index data untouched.
   * The one-page case (`|views| == 1`) needs a page 1 whose last-page number
   * is readable although the link is absent; a real response never has both,
   * since the number is read from that link, and such a book fails as
   * `WalkFirstPageUnreadable` states.
   */
  lemma {:induction false} WalkWholeBook(b: Book, views: seq<PageView>)
    requires |views| > 0 && views[0].pageNumber == 1 && views[0].lastPageTarget.Some?
    requires views[0].volumeMenu.Some? ==> ReadVolumes(VolumeLinks(views[0].volumeMenu.value)).Some?
    requires views[0].hasLastPage <==> |views| > 1
    requires |views| > 1 ==> LaterPages(views[1..]) && !views[|views| - 1].hasLastPage
    ensures var (b', outcome) := Walk(b, views, "");
      && outcome == Emitted
      && b'.text == b.text + Records(views)
      && b'.pages == Some(|b.text| + |views|)
      && b'.allPages == views[0].lastPageTarget
      && b'.title == b.title && b'.toc == b.toc && b'.pageChapters == b.pageChapters
  {
    var b1 := Step(b, views[0], "").0;
    StepFirstWhole(b, views[0]);
    if |views| > 1 {
      WalkFollows(b, views, "");
      WalkAppendsLaterPages(b1, views[1..]);
      assert Records(views) == [Record(views[0])] + Records(views[1..]);
    } else {
      WalkEmits(b, views, "");
      assert Records(views) == [Record(views[0])];
    }
  }

  /** Page 1 without a requested volume: the page is recorded next to the page count and the volumes. */
  lemma {:induction false} StepFirstWhole(b: Book, v: PageView)
    requires v.pageNumber == 1 && v.lastPageTarget.Some?
    requires v.volumeMenu.Some? ==> ReadVolumes(VolumeLinks(v.volumeMenu.value)).Some?
    ensures var s := Step(b, v, "");
      && s.0.text == b.text + [Record(v)] && s.0.allPages == v.lastPageTarget
      && s.0.title == b.title && s.0.toc == b.toc && s.0.pageChapters == b.pageChapters
      && (v.hasLastPage ==> s.1 == Follow)
      && (!v.hasLastPage ==> s.1 == Emit && s.0.pages == Some(|b.text| + 1))
  {
  }

  /** An emitting page ends the walk. */
  lemma {:induction false} WalkEmits(b: Book, views: seq<PageView>, vol: string)
    requires |views| > 0 && Step(b, views[0], vol).1 == Emit
    ensures Walk(b, views, vol) == (Step(b, views[0], vol).0, Emitted)
  {
  }

  /** A followed page hands the rest of the responses to the next state. */
  lemma {:induction false} WalkFollows(b: Book, views: seq<PageView>, vol: string)
    requires |views| > 0 && Step(b, views[0], vol).1 == Follow
    ensures Walk(b, views, vol) == Walk(Step(b, views[0], vol).0, views[1..], vol)
  {
  }

  /** A later page inside the requested volume, with a last-page link, is recorded and followed. */
  lemma {:induction false} ContinueWithin(b: Book, v: PageView, vol: string, range: Range)
    requires vol != "" && Get(b.volumes, vol) == Some(range)
    requires v.pageNumber != 1 && v.pageNumber <= range.1 && v.hasLastPage
    ensures Step(b, v, vol) == (b.(text := b.text + [Record(v)]), Follow)
  {
  }

  /** A later page past the requested volume's end emits the narrowed book without it. */
  lemma {:induction false} ContinuePast(b: Book, v: PageView, vol: string, range: Range)
    requires vol != "" && Get(b.volumes, vol) == Some(range)
    requires v.pageNumber != 1 && v.pageNumber > range.1
    ensures Step(b, v, vol) == (Narrow(b, vol, range).(pages := Some(|b.text|)), Emit)
  {
  }

  lemma {:induction false} WalkWithinVolume(b: Book, views: seq<PageView>, vol: string, range: Range)
    requires vol != "" && Get(b.volumes, vol) == Some(range)
    requires LaterPages(views)
    requires forall i :: 0 <= i < |views| - 1 ==> views[i].pageNumber <= range.1
    requires views[|views| - 1].pageNumber > range.1
    ensures Walk(b, views, vol) ==
      (Narrow(b.(text := b.text + Records(views[..|views| - 1])), vol, range)
        .(pages := Some(|b.text| + |views| - 1)), Emitted)
    decreases |views|
  {
    if |views| > 1 {
      var b1 := b.(text := b.text + [Record(views[0])]);
      var rest := views[1..];
      ContinueWithin(b, views[0], vol, range);
      WalkFollows(b, views, vol);
      assert LaterPages(rest);
      WalkWithinVolume(b1, rest, vol, range);
      RecordsFirst(views);
      assert b.text + Records(views[..|views| - 1]) == b1.text + Records(rest[..|rest| - 1]);
    } else {
      assert Records(views[..0]) == [];
      assert b.(text := b.text + []) == b;
      ContinuePast(b, views[0], vol, range);
      WalkEmits(b, views, vol);
    }
  }

  /** The records of all pages but the last, split after the first page. */
  lemma {:induction false} RecordsFirst(views: seq<PageView>)
    requires |views| > 1
    ensures Records(views[..|views| - 1]) == [Record(views[0])] + Records(views[1..][..|views| - 2])
  {
    assert views[1..][..|views| - 2] == views[..|views| - 1][1..];
  }

  /** Page 1 showing another volume: the walk continues from the jumped-from state. */
  lemma {:induction false} WalkJumpsToVolume(b: Book, views: seq<PageView>, vol: string, range: Range)
    requires |views| > 0 && vol != "" && ShowsOtherVolume(views[0], vol, range)
    ensures var found := ReadVolumes(VolumeLinks(views[0].volumeMenu.value)).value;
      var b1 := b.(allPages := views[0].lastPageTarget, volumes := StartEndPages(found));
      Walk(b, views, vol) == Walk(b1, views[1..], vol) && Get(b1.volumes, vol) == Some(range)
  {
    StepJumpsToVolumeStart(b, views[0], vol, range);
  }

  /** Page 1 of a book whose volume menu reads, showing a volume other than `vol`, which spans `range`. */
  predicate ShowsOtherVolume(v: PageView, vol: string, range: Range) {
    && v.pageNumber == 1 && v.lastPageTarget.Some? && v.volumeMenu.Some?
    && ReadVolumes(VolumeLinks(v.volumeMenu.value)).Some?
    && VolumeListed(v.volumeMenu, vol)
    && v.volumeButton.Some? && Strip(v.volumeButton.value) != vol
    && Get(StartEndPages(ReadVolumes(VolumeLinks(v.volumeMenu.value)).value), vol) == Some(range)
  }

  /**
   * With a requested volume `vol` spanning `range`: page 1 (showing another
   * volume) jumps to the volume's first page; the pages of the volume are
   * then taken in order until the first page past its end, and the emitted
   * book holds exactly those pages, narrowed to the volume.
   */
  lemma {:induction false} WalkOneVolume(b: Book, views: seq<PageView>, vol: string, range: Range)
    requires |views| >= 2 && vol != "" && ShowsOtherVolume(views[0], vol, range)
    requires LaterPages(views[1..])
    requires forall i :: 1 <= i < |views| - 1 ==> views[i].pageNumber <= range.1
    requires views[|views| - 1].pageNumber > range.1
    ensures var found := ReadVolumes(VolumeLinks(views[0].volumeMenu.value)).value;
      var b1 := b.(allPages := views[0].lastPageTarget, volumes := StartEndPages(found));
      Walk(b, views, vol) ==
        (Narrow(b1.(text := b.text + Records(views[1..|views| - 1])), vol, range)
          .(pages := Some(|b.text| + |views| - 2)), Emitted)
  {
    var v := views[0];
    var found := ReadVolumes(VolumeLinks(v.volumeMenu.value)).value;
    var b1 := b.(allPages := v.lastPageTarget, volumes := StartEndPages(found));
    WalkJumpsToVolume(b, views, vol, range);
    WalkAfterJump(b1, b, views, vol, range);
  }

  /** After the jump, the pages of the volume are taken up to the first past its end. */
  lemma {:induction false} WalkAfterJump(b1: Book, b: Book, views: seq<PageView>, vol: string, range: Range)
    requires |views| >= 2 && vol != "" && Get(b1.volumes, vol) == Some(range) && b1.text == b.text
    requires LaterPages(views[1..])
    requires forall i :: 1 <= i < |views| - 1 ==> views[i].pageNumber <= range.1
    requires views[|views| - 1].pageNumber > range.1
    ensures Walk(b1, views[1..], vol) ==
      (Narrow(b1.(text := b.text + Records(views[1..|views| - 1])), vol, range)
        .(pages := Some(|b.text| + |views| - 2)), Emitted)
  {
    BoundsAfterFirst(views, range.1);
    WalkWithinVolume(b1, views[1..], vol, range);
    EmittedAfterFirst(Walk(b1, views[1..], vol), b1, b, views, vol, range);
  }

  /** `WalkWithinVolume`'s result on `views[1..]`, restated in terms of `views`. */
  lemma {:induction false} EmittedAfterFirst(w: (Book, Outcome), b1: Book, b: Book, views: seq<PageView>, vol: string, range: Range)
    requires |views| >= 2 && b1.text == b.text
    requires w == (Narrow(b1.(text := b1.text + Records(views[1..][..|views| - 2])), vol, range)
                     .(pages := Some(|b1.text| + |views| - 2)), Emitted)
    ensures w == (Narrow(b1.(text := b.text + Records(views[1..|views| - 1])), vol, range)
                    .(pages := Some(|b.text| + |views| - 2)), Emitted)
  {
    assert views[1..][..|views| - 2] == views[1..|views| - 1];
  }

  /** The page bound on `views[1..|views| - 1]`, restated on `views[1..]`. */
  lemma {:induction false} BoundsAfterFirst(views: seq<PageView>, hi: int)
    requires |views| >= 2 && forall i :: 1 <= i < |views| - 1 ==> views[i].pageNumber <= hi
    ensures forall i :: 0 <= i < |views[1..]| - 1 ==> views[1..][i].pageNumber <= hi
  {
    forall i | 0 <= i < |views[1..]| - 1
      ensures views[1..][i].pageNumber <= hi
    {
      assert views[1..][i] == views[i + 1];
    }
  }
}
