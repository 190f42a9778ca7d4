# shamela_crawler in Dafny

A Dafny model of the core of shamela_crawler. The crawler is a Scrapy project. It downloads a book from shamela.ws page by page, then exports it as an EPUB or as a sorted JSON list.

The model covers the crawler's three core parts:

- **The book spider** (`shamela/spiders/book.py`):
  - `Toc`: reading the table of contents into a tree, and cutting it to one volume.
  - `Volumes`: turning the volume menu into page ranges, and building the chapter index by page.
  - `Walker`: the page walker `parse_book_text`. It appends one record per page, jumps to a requested volume, and emits the book, narrowed to the volume when one is requested. Each response is abstracted as the values the selectors read from it. Each step is a transition of the `data` accumulator together with an action: follow, jump, emit, or the exception the Python code would raise.
- **The EPUB exporter** (`shamela/exporters/epub.py`):
  - `Scan`: its regular expressions, written as scanners with the leftmost, lazy matching of Python's `re`.
  - `Footnotes`: collecting a page's footnotes into numbered asides.
  - `Hamesh`: `_update_hamesh`, which links the footnote markers of the text to those asides while leaving markers inside Quranic verses alone.
  - `Styles`: interning colour styles as CSS classes, and expanding the honorific ligatures.
  - `Headings`: turning chapter titles into headings at their depth in the table of contents.
  - `Epub`: the exporter object itself. This covers its colour classes, chapter links and pages, file names, footers, the table of contents and the reading order.
- **The sorted JSON exporter** (`shamela/exporters.py`), in `SortedExporter`. It collects the items and then sorts them, stably, by `id`. An id is an integer (books, authors) or a string (categories), compared as Python compares it. Integer and string keys in one list make the sort raise `TypeError`.

The `info` dict the book spider builds has no `url` key, and `export_item` reads `info['url']` (epub.py:281). So every crawled book with pages stops in the exporter with a `KeyError`, after the zero-fill width is set and before any document exists (`Epub.CrawledBookNotExported`). The model keeps `url` optional and states this failure in `Epub.EpubExporter.ExportItem`.

Python dicts whose order matters (volumes, the chapter index) are association lists with distinct keys. `Common` holds the shared string and dictionary helpers: `str.replace`, `strip`, `split`, `zfill`, decimal conversion, and ordered-dict get and put.

Three kinds of code become objects with state, as in the source:
- the `data` accumulator (`Walker.BookData`);
- the EPUB exporter (`Epub.EpubExporter`);
- the JSON exporter (`SortedExporter.SortedJsonItemExporter`).

Their methods are proved against the functions that specify them. The loops of the source are `while` loops with invariants. These are the loops of `_get_start_end_pages`, `_chapters_by_page`, `_get_hamesh_items`, the marker and paragraph loops of `_update_hamesh`, `create_toc_depth_map`, `replace_titles_with_headers`, `replace_color_styles_with_class`, `add_chapter` and the page loop of `export_item`.

## Model

| member | source | states |
|---|---|---|
| Toc.ParseTocShape | shamela/spiders/book.py:148-166 | the tree has one item per index entry: a link for a plain entry, the pair `[link, children]` for an entry with a sub-list |
| Toc.ParseTocKeepsLinks | shamela/spiders/book.py:148-166 | the tree's links in reading order are exactly the index's links in markup order |
| Toc.CutTocShape | shamela/spiders/book.py:183-202 | every link left by the cut lies in the volume's range, and no nested list left is empty |
| Toc.CutTocFixpoint | shamela/spiders/book.py:183-202 | a tree already of that shape is left unchanged by the cut |
| Toc.CutTocIdempotent | shamela/spiders/book.py:183-202 | cutting twice to the same range equals cutting once |
| Toc.CutTocStopsAtOutOfRange | shamela/spiders/book.py:198-201 | the first link out of range ends its list: nothing after it is kept |
| Toc.CutTocDropsGroupWithHeaderOutOfRange | shamela/spiders/book.py:193-201 | a `[link, children]` group whose link is out of range disappears whole, children included |
| Toc.CutTocKeepsOrder | shamela/spiders/book.py:183-202 | the links kept are a subsequence of the original links, in their original order |
| Volumes.GetStartEndPages | shamela/spiders/book.py:223-239 | the loop computes the range function; labels stay distinct |
| Volumes.StartEndPagesPartition | shamela/spiders/book.py:223-239 | for labelled volumes with growing last pages, the ranges start at 1, are contiguous, do not overlap, and cover every page up to the last |
| Volumes.VolumeOf | shamela/spiders/book.py:223-239 | every page from 1 to a volume's last page lies in the range of that volume or an earlier one |
| Volumes.ChaptersByPage | shamela/spiders/book.py:168-181 | the loop builds the chapter index one link at a time |
| Volumes.ChapterIndexMeaning | shamela/spiders/book.py:168-181 | the index's pages are the link pages, each once, in order of first appearance; each page maps to the stripped titles of its links, in link order |
| Volumes.ChapterIndexCountsEveryLink | shamela/spiders/book.py:176-180 | the index holds exactly one title per chapter link |
| Volumes.ChapterIndexPages | shamela/spiders/book.py:168-181 | a page is a key of the index if and only if some link points to it |
| Volumes.NarrowChapters | shamela/spiders/book.py:213-217 | an entry is kept if and only if its page lies in the range; keys stay distinct |
| Volumes.NarrowChaptersKeepsOrder | shamela/spiders/book.py:213-217 | the kept entries are a subsequence of the index: they keep the index's order |
| Walker.ReadVolumes | shamela/spiders/book.py:88-94 | the volume dict is read if and only if every menu link carries a page number; labels are distinct |
| Walker.NarrowToOneVolume | shamela/spiders/book.py:204-221 | narrowing keeps exactly the chapter pages in range and cuts the table of contents to the range. It leaves one volume entry, appends ` - vol` to the title, and changes nothing else |
| Walker.BookData.constructor | shamela/spiders/book.py:45-66 | the initial `data`: title, author, the about text without the parent class, the parsed tree, the chapter index, and no pages yet |
| Walker.BookData.UpdateDataForOneVolume | shamela/spiders/book.py:204-221 | the new state is the narrowed book |
| Walker.BookData.ParseBookText | shamela/spiders/book.py:68-146 | the new state and the action are those of one step of the walker |
| Walker.BookData.ReadVolumeLinks | shamela/spiders/book.py:89-93 | the loop over the menu links computes `ReadVolumes`: the volume dict, or nothing when some link's href carries no page number |
| Walker.StepRejectsUnlistedVolume | shamela/spiders/book.py:95-99 | on page 1, a requested volume that matches no menu label after the first raises the volume-not-found error, and no page is appended |
| Walker.StepJumpsToVolumeStart | shamela/spiders/book.py:100-107 | on page 1 showing another volume, the step records the page count and the volumes, then jumps to the requested volume's first page |
| Walker.StepEmitsPastVolumeEnd | shamela/spiders/book.py:108-113 | past the requested volume's last page, the narrowed book is emitted without this page, and `pages` is the record count |
| Walker.StepAppendsRecord | shamela/spiders/book.py:115-146 | otherwise exactly one record is appended, with page 0 when the field is missing. The step follows if and only if a last-page link exists; otherwise it emits, narrowed only on the volume's last page |
| Walker.StepTextGrowsByAtMostOne | shamela/spiders/book.py:68-146 | a step appends at most the page's own record; a failure or a jump appends nothing; an emit sets `pages` to the number of records |
| Walker.WalkFirstPageUnreadable | shamela/spiders/book.py:83-86 | page 1 without a readable last-page number ends the crawl with the `TypeError` of `int(None)` and leaves the data as it was |
| Walker.WalkWholeBook | shamela/spiders/book.py:68-146 | with no volume requested, walking page 1 and the later pages emits one record per page, in order, with `pages` their number and the index data untouched |
| Walker.WalkWithinVolume | shamela/spiders/book.py:108-146 | inside a requested volume, the pages up to the first one past its end are recorded in order, and the narrowed book is emitted |
| Walker.WalkJumpsToVolume | shamela/spiders/book.py:100-107 | after the jump from page 1, the walk continues from the state page 1 left, whose volumes give the requested range |
| Walker.WalkOneVolume | shamela/spiders/book.py:68-146 | a crawl of one volume emits exactly that volume's pages, in order, narrowed to the volume |
| Scan.MarkerAt | shamela/exporters/epub.py:18 | the marker pattern matches at a position if and only if a bracketed run of Arabic-Indic digits starts there |
| Scan.MarkersExact | shamela/exporters/epub.py:18 | `finditer` of the marker pattern finds exactly the markers of the text |
| Scan.MarkersFromComplete | shamela/exporters/epub.py:18 | markers never overlap, so the scan misses none |
| Scan.CurlyFromLeftmost | shamela/exporters/epub.py:19 | `search` of the curly pattern finds a match whenever there is one, and the leftmost one |
| Scan.CloseFromFirst | shamela/exporters/epub.py:20 | the lazy ayah pattern stops at the first closing bracket |
| Scan.AyahSpansFrom | shamela/exporters/epub.py:20 | every span found opens with the ayah opening bracket and closes with the closing one |
| Scan.ContinuationFromLeftmost | shamela/exporters/epub.py:14 | the continuation search finds a match whenever there is one, and the leftmost one |
| Scan.NoteAt | shamela/exporters/epub.py:15-17 | a footnote match starts with a marker, which is the note's number |
| Scan.NotesFromAreMarkers | shamela/exporters/epub.py:15-17 | the number of every footnote found is a marker in its own right |
| Footnotes.NoteItemsNumbering | shamela/exporters/epub.py:103-114 | footnote `k` is stored under key `k`, from 1 to the number of footnotes, and nowhere else |
| Footnotes.HameshItemsKeys | shamela/exporters/epub.py:81-115 | the keys run 1, 2, ... across all blocks without gaps; key 0 is present if and only if some block holds a continuation |
| Footnotes.HameshItemsNumbered | shamela/exporters/epub.py:103-114 | item `k` is the aside with id `k` of the `k`-th footnote; its back-link text is that footnote's marker, which `strip` leaves unchanged |
| Footnotes.LastContinuationFound | shamela/exporters/epub.py:88-101 | there is a continuation item if and only if some block has a continuation |
| Footnotes.ContinuationText | shamela/exporters/epub.py:90-95 | the loop over the `<br>` pieces builds the continuation text |
| Footnotes.AddNotes | shamela/exporters/epub.py:103-114 | the inner loop numbers a block's footnotes on from the counter |
| Footnotes.GetHameshItems | shamela/exporters/epub.py:81-115 | the loop over the blocks builds the page's items |
| Hamesh.LinkMarkers | shamela/exporters/epub.py:164-180 | the replacements are ordered and do not overlap; there is one per linked aside; the counter grows by the number linked |
| Hamesh.LinkMarkersNumbering | shamela/exporters/epub.py:166-180 | the `j`-th link goes to item `count + j`. It replaces a marker that lies outside any aya by the link of footnote `count + j`, whose text is that marker |
| Hamesh.LinkMarkersStopsWhenItemsRunOut | shamela/exporters/epub.py:168-169 | once no item is left for the counter, no later marker of the paragraph is linked |
| Hamesh.SplicingOrderIrrelevant | shamela/exporters/epub.py:181-183 | splicing the replacements last to first equals the left-to-right interleaving of kept text and links |
| Hamesh.ChooseLink | shamela/exporters/epub.py:166-180 | one marker is linked exactly when the counter names an item and the marker is not inside an aya; what is chosen so far plus what the remaining markers add stays the whole linking |
| Hamesh.ChooseLinks | shamela/exporters/epub.py:164-180 | the marker loop computes the marker-linking function |
| Hamesh.SpliceRightToLeft | shamela/exporters/epub.py:182-183 | the splicing loop computes the right-to-left splice |
| Hamesh.LinkParagraph | shamela/exporters/epub.py:162-184 | one paragraph: its markers are chosen as above, and its text becomes the interleaving |
| Hamesh.LinkParagraphs | shamela/exporters/epub.py:160-184 | across the paragraphs the counter grows by the number of asides linked |
| Hamesh.LinkParagraphsNumbering | shamela/exporters/epub.py:160-184 | the `j`-th aside linked on the page is item `count + j`: the numbering runs across paragraphs |
| Hamesh.LinkParagraphsStopWhenItemsRunOut | shamela/exporters/epub.py:168-169 | once the items run out, no paragraph changes and nothing more is linked |
| Hamesh.LinkAllParagraphs | shamela/exporters/epub.py:160-184 | the paragraph loop, started at footnote 1, computes the page linking |
| Hamesh.ReplacePairs | shamela/exporters/epub.py:185-186 | the loop applies the paragraph replacements in reverse order |
| Hamesh.InsertPlaceholders | shamela/exporters/epub.py:156-158 | the loop masks aya `k` as `PLACEHOLDER_k`, for k = 1, 2, ... |
| Hamesh.RestoreAyat | shamela/exporters/epub.py:187-189 | the restoring loop, highest index first, computes the restoring function |
| Hamesh.RestoredAyatPlaceholder | shamela/exporters/epub.py:187-189 | restoring (highest index first) puts aya `k` back in place of `PLACEHOLDER_k`, for every `k`, ten and above included |
| Hamesh.RestoredAyatAbsent | shamela/exporters/epub.py:187-189 | text without the placeholder prefix is left unchanged by restoring |
| Hamesh.PlaceholderNotInSmaller | shamela/exporters/epub.py:158 | a placeholder never occurs inside one with a smaller index |
| Hamesh.AsWrittenRestoresTenthWrongly | shamela/exporters/epub.py:187-189 | as written, with ten ayat or more, `PLACEHOLDER_10` is restored as the first aya plus `0` rather than as the tenth aya |
| Hamesh.ItemUnderKey | shamela/exporters/epub.py:148-152 | key 0 holds the continuation if there is one; key `k > 0` holds footnote `k` exactly when `k` is at most the number of footnotes |
| Hamesh.LinkedAsideNumbered | shamela/exporters/epub.py:179 | the `j`-th aside appended is footnote `j + 1` |
| Hamesh.NewAsidesInOrder | shamela/exporters/epub.py:149-152 | the new footnote block holds the continuation, if any, then footnotes 1, 2, ..., m in order, for some m up to the number of footnotes |
| Hamesh.UpdateHamesh | shamela/exporters/epub.py:143-190 | the method computes the page update, with the ayat restored highest index first (see "## Findings"); a page without footnote blocks is returned unchanged |
| Styles.StylesFrom | shamela/exporters/epub.py:13 | every colour style found is 13 characters long and starts with `color:#` |
| Styles.StylesFromOccur | shamela/exporters/epub.py:13 | every style found occurs in the text as a `style="..."` attribute |
| Styles.StyleNoOverlap | shamela/exporters/epub.py:13 | two matches of the colour pattern never overlap |
| Styles.StylesFromComplete | shamela/exporters/epub.py:68-71 | the non-overlapping scan of `findall` misses no match starting at or after its start |
| Styles.StylesFromSound | shamela/exporters/epub.py:68-71 | every style the scan finds is the group of a match of the pattern |
| Styles.ColorStylesExact | shamela/exporters/epub.py:68-71 | a style is in `findall`'s result if and only if the pattern matches somewhere with that group |
| Styles.InternStep | shamela/exporters/epub.py:72-77 | a known style keeps its class; a new one gets `color-(last+1)`, the counter is bumped and one rule is appended; the palette stays valid |
| Styles.InternAllValid | shamela/exporters/epub.py:71-77 | after the loop the classes are still distinct and each was handed out by the counter |
| Styles.InternAllKeys | shamela/exporters/epub.py:71-77 | after the loop every listed style has a class, old classes are kept, and the counter grows by the number of new styles |
| Styles.RecolorValid | shamela/exporters/epub.py:67-79 | converting a page keeps the palette valid |
| Styles.RecolorPalette | shamela/exporters/epub.py:67-79 | after a page, the new keys are exactly the page's styles, old classes are kept, and the counter grows by the number of new styles |
| Styles.Ligature | shamela/exporters/epub.py:21-38 | only the sixteen ligature characters have a phrase, and no phrase holds a ligature character |
| Styles.ExpandLigaturesLeavesNone | shamela/exporters/epub.py:39 | no ligature is left after the expansion |
| Styles.ExpandLigaturesIdentity | shamela/exporters/epub.py:39 | text without ligatures is left unchanged |
| Styles.ExpandLigaturesIdempotent | shamela/exporters/epub.py:39 | expanding twice equals expanding once |
| Headings.Clamp | shamela/exporters/epub.py:207 | the level lies in 2..6, is the depth itself inside that range, 2 below it and 6 above it |
| Headings.CreateTocDepthMap | shamela/exporters/epub.py:198-208 | the recursive loop computes the depth-map function |
| Headings.DepthMapLastWins | shamela/exporters/epub.py:198-208 | the `i`-th title in reading order, if not repeated later, maps to its clamped nesting depth; every value lies in 2..6 |
| Headings.LeafDepthsAreLeaves | shamela/exporters/epub.py:203-207 | every link of the tree gets a depth, in reading order |
| Headings.NestedIsDeeper | shamela/exporters/epub.py:204-205 | the titles of a nested list are one level deeper than the list's own level |
| Headings.HeaderLevel | shamela/exporters/epub.py:219 | the header level lies in 2..6; it is 2 for a title with no depth, and the depth itself when that is in range |
| Headings.ReplaceTitlesWithHeaders | shamela/exporters/epub.py:210-224 | the loop over the page's titles computes the title replacement |
| Headings.TitleBecomesHeader | shamela/exporters/epub.py:217-223 | a bracketed title whose paragraph carries the class of the page's first title paragraph becomes a header of its level with that class |
| Headings.TitleWithOtherClassKept | shamela/exporters/epub.py:217-223 | only the first title paragraph's class is tried: a title whose paragraph has another class is left alone |
| Headings.TitlesAbsentNoChange | shamela/exporters/epub.py:215-216 | titles that do not appear in brackets leave the text unchanged |
| Epub.PageVolumeFirst | shamela/exporters/epub.py:298-305 | a page's volume is the first (0-based) whose range holds it; when none does, index 1 and no label |
| Epub.PageFileNameInjective | shamela/exporters/epub.py:306-309 | equal file names mean the same "has a label" flag, the same volume index and the same page number |
| Epub.RewrittenTextPlain | shamela/exporters/epub.py:314-323 | a page without colour styles, ligatures or chapters keeps its text; with footnote rewriting on but no footnote block, it becomes its `div` |
| Epub.ChapterLinks | shamela/exporters/epub.py:226-234 | one link per chapter, in order, each to the page with uid equal to the file name minus `.xhtml` |
| Epub.WithChaptersLinks | shamela/exporters/epub.py:226-234 | after `add_chapter` each chapter of the page maps to its link, other titles keep theirs, and the keys grow by the chapters |
| Epub.TocLinksFaithful | shamela/exporters/epub.py:236-243 | the rewritten table keeps the tree's nesting; its entries in reading order are the sections of the links' titles, or none when a title has no section |
| Epub.Spine | shamela/exporters/epub.py:255-259 | the reading order is the information page, the navigation document, then the other pages in order |
| Epub.EpubExporter.constructor | shamela/exporters/epub.py:50-65 | the exporter starts empty with no colour classes and counter 0 |
| Epub.EpubExporter.StartExporting | shamela/exporters/epub.py:261-272 | the default style sheet is installed; nothing else changes |
| Epub.EpubExporter.InternStyle | shamela/exporters/epub.py:72-77 | the loop body gives the style its class as the palette function does, and the class is stored |
| Epub.EpubExporter.ReplaceColorStylesWithClass | shamela/exporters/epub.py:67-79 | the palette and the text become those of the recolouring function for the page's set of styles; the palette stays valid |
| Epub.EpubExporter.AddChapter | shamela/exporters/epub.py:226-234 | the sections grow by the chapter links and the map is updated with them |
| Epub.EpubExporter.UpdateTocList | shamela/exporters/epub.py:236-243 | the recursive loop computes the rewritten table of contents |
| Epub.EpubExporter.GenerateToc | shamela/exporters/epub.py:245-259 | the book's table is the information link, the navigation link, then the rewritten table; the reading order is the spine of the pages |
| Epub.EpubExporter.ExportPage | shamela/exporters/epub.py:293-332 | one page becomes its document: title, file name, text rewritten in order (ayat restored highest index first), and footer. Its chapters link to it and the palette is updated |
| Epub.EpubExporter.ExportNextPage | shamela/exporters/epub.py:293-332 | one pass of the page loop moves the exporter's pages, palette, sections and chapter map on by one step of the fold |
| Epub.EpubExporter.ExportPages | shamela/exporters/epub.py:293-332 | the documents, the palette, the sections and the chapter map after the loop are those of the fold `ExportedBook` over the records |
| Epub.ExportedBookGrows | shamela/exporters/epub.py:293-332 | the loop appends exactly one document per record after the documents already there |
| Epub.ExportedBookPrefix | shamela/exporters/epub.py:293-332 | the loop over a prefix of the records builds a prefix of the documents |
| Epub.ExportedBookPageAt | shamela/exporters/epub.py:293-332 | the document of record `i` is that record's page, rewritten with the colour classes the records before it handed out |
| Epub.ExportedBookTitles | shamela/exporters/epub.py:294-309 | every document carries its record's title (its first chapter, or none) and file name |
| Epub.ExportedBookPalette | shamela/exporters/epub.py:67-79 | after the loop the palette is valid, holds the old styles plus every style of every page, keeps the old classes, and the counter grew by the number of new styles |
| Epub.ExportedBookChapters | shamela/exporters/epub.py:226-234 | after the loop the chapter map holds the old titles and every chapter of every page; a chapter links to the last page listing it, and a title no page lists keeps its link |
| Epub.CrawledBookNotExported | shamela/exporters/epub.py:277-281 | the `info` of a crawled book has no `url`, so its export fails: with `KeyError` when it has pages, with `IndexError` when it has none |
| Epub.EpubExporter.ExportItem | shamela/exporters/epub.py:274-334 | an empty page list ends in the `IndexError` of `pages[-1]` with nothing changed. A missing `url` ends in the `KeyError` of `info['url']`, with only the zero-fill width set; otherwise the zero-fill width comes from the last page number, and the documents, palette, sections and chapter map are the fold `ExportedBook` started from the information page. The table of contents is built over that fold's chapter map and the reading order follows |
| SortedExporter.StrLeReflexive | shamela/exporters.py:20 | Python's string order is reflexive |
| SortedExporter.StrLeTotal | shamela/exporters.py:20 | any two strings are ordered one way or the other |
| SortedExporter.StrLeTransitive | shamela/exporters.py:20 | Python's string order is transitive |
| SortedExporter.TenBeforeNine | shamela/exporters.py:20 | as strings, `"10"` sorts below `"9"` |
| SortedExporter.StringIdsSortAsStrings | shamela/exporters.py:20 | items with string ids `"9"` and `"10"` come out as `"10"`, then `"9"` |
| SortedExporter.InsertSorted | shamela/exporters.py:20 | inserting into a sorted list keeps it sorted by `id` |
| SortedExporter.InsertPermutes | shamela/exporters.py:20 | inserting adds exactly the item |
| SortedExporter.InsertStable | shamela/exporters.py:20 | the inserted item comes after every item of the same `id` |
| SortedExporter.SortByIdSorted | shamela/exporters.py:20 | the sorted list is non-decreasing by `id` (numbers by value, strings as Python compares them), a missing `id` counting as 0, and is a permutation of the items |
| SortedExporter.SortByIdStable | shamela/exporters.py:20 | the sort is stable: the items of each `id` keep their export order |
| SortedExporter.SortedJsonItemExporter.constructor | shamela/exporters.py:9-11 | the item list starts empty |
| SortedExporter.SortedJsonItemExporter.ExportItem | shamela/exporters.py:13-14 | exactly one item is appended and nothing else changes |
| SortedExporter.SortedJsonItemExporter.StartExporting | shamela/exporters.py:16-17 | nothing changes |
| SortedExporter.SortedJsonItemExporter.FinishExporting | shamela/exporters.py:19-21 | integer and string keys together (a missing `id` counting as the integer 0) raise `TypeError`, leaving the same items; otherwise the items become their stable sort by `id`: sorted, a permutation, and in export order within each `id` |

## Left out

- Network, Scrapy requests and responses, and HTML parsing are not modelled. A response becomes the values its selectors read (`Walker.PageView`). The paragraphs and `div` of a rewritten page come from function parameters (`dom`, `parse`).
- The iteration order of a Python `set` is a parameter. `replace_color_styles_with_class` visits `list(set(...))`; the model takes any order that lists each style of the page once (`Styles.EnumeratesStyles`).
- `\w` in the colour pattern is modelled as ASCII letters, digits and `_`. Python's Unicode word class is wider.
- `.re(self.vol)` on the volume labels is modelled as substring containment. A volume name holding regular-expression metacharacters is not modelled.
- `re.sub(f'style="{style}"', ...)` is modelled as a literal replacement. A colour style holds no metacharacters, so the two agree.
- Serialization by lxml (`element_as_text`, `tostring`, `unescape`) is modelled by fixed renderers of the link, aside and block markup. Attribute order and escaping beyond that are not modelled.
- The final `.css('div').get()` of `export_item` is taken to give back the rewritten `div`.
- Hamesh.WithPlaceholders: only the restoring half of the placeholder round trip is proved (`RestoredAyatPlaceholder`). A full round trip over a page would also need every aya to occur once in the `div`, and this is not stated.
- Hamesh.UpdatedPage: that markers inside a masked aya are never linked is shown only through `PlaceholderHasNoMarker`. No lemma about the whole page states it.
- Styles.Recolored and Headings.ReplacedTitles: the model does not prove that no `style="..."` attribute, or no linked title paragraph, is left after the replacements.
- Headings.TitleBecomesHeader: proves only that the chapter's header occurs in the rewritten text, not that the title's paragraph is gone from it.
- Hamesh.UpdateHamesh, Hamesh.RestoreAyat, Epub.EpubExporter.ExportPage, Epub.EpubExporter.ExportNextPage: the masked ayat are restored highest index first (the corrected `Hamesh.RestoredAyat`), not in the ascending order of epub.py:187-189. On a page with ten or more ayat the source puts aya 1 followed by `0` where `PLACEHOLDER_10` stood, and the model puts aya 10 (see "## Findings"). `Epub.RewrittenText`, `Epub.ExportedPage`, `Epub.EpubExporter.ExportPages` and `Epub.EpubExporter.ExportItem` inherit this difference.
- `_update_toc_list` rewrites a deep copy of the tree in place. The model builds the rewritten tree as a new value (`Epub.TocLinks`) and does not model the copy.
- SortedExporter.SortedJsonItemExporter.FinishExporting: after a `TypeError` only the multiset of the items is stated. Python leaves the list in an order it does not promise.
- A sort key other than an integer, a string or a missing `id` (a float, `None`) is not modelled: no spider yields one.
- Book metadata (`set_title`, `add_author`, `add_metadata`, language and direction) is not stored. Only the `KeyError` of the `info['url']` lookup is modelled. Neither are the NCX and navigation items, `epub.write_epub` in `finish_exporting` (epub.py:336-337), the JSON encoding and file write of `SortedJsonItemExporter.finish_exporting`, or `_get_serialized_fields`, which is taken to give the item's fields as they are.
- The unused `_pages_count` and `_toc` fields are left out. So are `lang` and the style-sheet items attached to each document.
- The empty-span and paragraph-style clean-up of `parse_book_text` (book.py:118-124) is not modelled: it acts on the parsed DOM. A page's text is its content with the parent class removed.

## Findings

| source | as written | input that shows it | evidently intended | confidence | as-written member | corrected member |
|---|---|---|---|---|---|---|
| shamela/exporters/epub.py:187-189 | the ayat are put back in the order `PLACEHOLDER_1`, `PLACEHOLDER_2`, ..., so `PLACEHOLDER_1` also matches the first 13 characters of `PLACEHOLDER_10`, `PLACEHOLDER_11`, ... | a page whose paragraphs hold ten or more ayat: `PLACEHOLDER_10` becomes the first aya followed by `0` | every `PLACEHOLDER_k` becomes aya `k` (for instance, by restoring the highest index first) | not executed | Hamesh.AsWrittenRestoresTenthWrongly | Hamesh.RestoredAyatPlaceholder |

The rest of the model uses the corrected restoring (`Hamesh.RestoredAyat`, in `Hamesh.UpdatedPage`).
