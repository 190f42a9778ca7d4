/**
 * Volume ranges and the chapter index of a book (shamela/spiders/book.py):
 * `_get_start_end_pages`, `_chapters_by_page`, and the chapter-index part of
 * `_update_data_for_one_volume`.
 */
module Volumes {
  import opened Common
  import opened Toc

  /** An inclusive page range `(start, end)`. */
  type Range = (int, int)

  // ---------------------------------------------------------------------------
  // _get_start_end_pages

  /**
   * Where volume `i` starts: page 1 for the first volume, and for a later one
   * the page after the previous volume's last page — unless the previous
   * label is empty, which Python reads as "no previous volume".
   */
  function StartPage(volumes: seq<(string, int)>, i: nat): int
    requires i < |volumes|
  {
    if i == 0 || volumes[i - 1].0 == "" then 1 else volumes[i - 1].1 + 1
  }

  /** The ranges: each volume keeps its label and position and ends at its own value. */
  function StartEndPages(volumes: seq<(string, int)>): (r: seq<(string, Range)>)
    ensures |r| == |volumes|
  {
    seq(|volumes|, i requires 0 <= i < |volumes| => (volumes[i].0, (StartPage(volumes, i), volumes[i].1)))
  }

  /** `_get_start_end_pages`: the loop carrying the previous volume's name. */
  method GetStartEndPages(volumes: seq<(string, int)>) returns (r: seq<(string, Range)>)
    requires DistinctKeys(volumes)
    ensures DistinctKeys(r)
    ensures r == StartEndPages(volumes)
  {
    r := [];
    var prev: Option<string> := None;
    var i := 0;
    while i < |volumes|
      invariant 0 <= i <= |volumes|
      invariant r == StartEndPages(volumes)[..i]
      invariant prev == if i == 0 then None else Some(volumes[i - 1].0)
    {
      var name := volumes[i].0;
      var startPage := 1;
      if prev.Some? && prev.value != "" {
        GetAt(volumes, i - 1);
        startPage := Get(volumes, prev.value).value + 1;
      }
      var endPage := volumes[i].1;
      StartEndPagesPrefix(volumes, i);
      r := Put(r, name, (startPage, endPage));
      prev := Some(name);
      i := i + 1;
    }
    assert StartEndPages(volumes)[..|volumes|] == StartEndPages(volumes);
  }

  lemma {:induction false} StartEndPagesPrefix(volumes: seq<(string, int)>, i: nat)
    requires DistinctKeys(volumes) && i < |volumes|
    ensures var r := StartEndPages(volumes);
      && DistinctKeys(r)
      && (forall j :: 0 <= j < i ==> r[..i][j].0 != volumes[i].0)
      && r[..i + 1] == r[..i] + [(volumes[i].0, (StartPage(volumes, i), volumes[i].1))]
  {
  }

  /** Labels that Python reads as true, and last pages that grow strictly. */
  predicate WellFormedVolumes(volumes: seq<(string, int)>) {
    && |volumes| > 0
    && volumes[0].1 >= 1
    && (forall i :: 0 <= i < |volumes| ==> volumes[i].0 != "")
    && (forall i :: 0 < i < |volumes| ==> volumes[i - 1].1 < volumes[i].1)
  }

  lemma {:induction false} IncreasingEnds(volumes: seq<(string, int)>, i: nat, j: nat)
    requires WellFormedVolumes(volumes)
    requires i < j < |volumes|
    ensures volumes[i].1 < volumes[j].1
    decreases j - i
  {
    if i + 1 < j {
      IncreasingEnds(volumes, i, j - 1);
    }
  }

  /** Some range of `r` holds page `p`. */
  predicate Covered(r: seq<(string, Range)>, p: int) {
    exists i :: 0 <= i < |r| && r[i].1.0 <= p <= r[i].1.1
  }

  /**
   * For well-formed input the ranges are contiguous, do not overlap, and
   * cover exactly the pages 1 to the last volume's last page.
   */
  lemma {:induction false} StartEndPagesPartition(volumes: seq<(string, int)>)
    requires WellFormedVolumes(volumes)
    ensures var r := StartEndPages(volumes);
      && r[0].1.0 == 1
      && r[|r| - 1].1.1 == volumes[|volumes| - 1].1
      && (forall i :: 0 <= i < |r| ==> r[i].1.0 <= r[i].1.1)
      && (forall i :: 0 < i < |r| ==> r[i].1.0 == r[i - 1].1.1 + 1)
      && (forall i, j :: 0 <= i < j < |r| ==> r[i].1.1 < r[j].1.0)
      && (forall p :: 1 <= p <= volumes[|volumes| - 1].1 ==> Covered(r, p))
  {
    var r := StartEndPages(volumes);
    forall i, j | 0 <= i < j < |r|
      ensures r[i].1.1 < r[j].1.0
    {
      if i < j - 1 {
        IncreasingEnds(volumes, i, j - 1);
      }
    }
    forall p | 1 <= p <= volumes[|volumes| - 1].1
      ensures Covered(r, p)
    {
      var i := VolumeOf(volumes, p, |volumes| - 1);
      assert r[i].1.0 <= p <= r[i].1.1;
    }
  }

  /** The volume holding page `p`, searched from volume `k` downwards. */
  lemma {:induction false} VolumeOf(volumes: seq<(string, int)>, p: int, k: nat) returns (i: nat)
    requires WellFormedVolumes(volumes)
    requires k < |volumes| && 1 <= p <= volumes[k].1
    ensures i <= k && StartPage(volumes, i) <= p <= volumes[i].1
    decreases k
  {
    if k == 0 || p > volumes[k - 1].1 {
      i := k;
    } else {
      i := VolumeOf(volumes, p, k - 1);
    }
  }

  // ---------------------------------------------------------------------------
  // _chapters_by_page

  /** The pages of the chapter links, each once, in order of first appearance. */
  function FirstSeen(links: seq<(int, string)>): seq<int>
  {
    if links == [] then []
    else
      var pre := FirstSeen(links[..|links| - 1]);
      var p := links[|links| - 1].0;
      if p in pre then pre else pre + [p]
  }

  /** The stripped titles of the links to page `p`, in link order. */
  function TitlesOn(links: seq<(int, string)>, p: int): seq<string>
  {
    if links == [] then []
    else
      var pre := TitlesOn(links[..|links| - 1], p);
      var last := links[|links| - 1];
      if last.0 == p then pre + [Strip(last.1)] else pre
  }

  /** `chapters[p].append(title)`, creating `chapters[p] = []` first when `p` is new. */
  function AddTitle(index: seq<(int, seq<string>)>, p: int, title: string): seq<(int, seq<string>)> {
    Put(index, p, Get(index, p).GetOr([]) + [title])
  }

  /** The chapter index after the links so far, one link at a time. */
  function ChapterIndex(links: seq<(int, string)>): (index: seq<(int, seq<string>)>)
  {
    if links == [] then []
    else
      var last := links[|links| - 1];
      AddTitle(ChapterIndex(links[..|links| - 1]), last.0, Strip(last.1))
  }

  /** `_chapters_by_page`: one pass over the chapter links. */
  method ChaptersByPage(links: seq<(int, string)>) returns (chapters: seq<(int, seq<string>)>)
    ensures chapters == ChapterIndex(links)
  {
    chapters := [];
    var i := 0;
    while i < |links|
      invariant 0 <= i <= |links|
      invariant chapters == ChapterIndex(links[..i])
    {
      var chapterPage := links[i].0;
      var title := Strip(links[i].1);
      AddTitleInTwoSteps(chapters, chapterPage, title);
      ghost var next := AddTitle(chapters, chapterPage, title);
      if Get(chapters, chapterPage).None? {
        chapters := Put(chapters, chapterPage, []);
      }
      chapters := Put(chapters, chapterPage, Get(chapters, chapterPage).value + [title]);
      ChapterIndexPrefix(links, i);
      i := i + 1;
    }
    assert links[..|links|] == links;
  }

  lemma {:induction false} ChapterIndexPrefix(links: seq<(int, string)>, i: nat)
    requires i < |links|
    ensures ChapterIndex(links[..i + 1]) == AddTitle(ChapterIndex(links[..i]), links[i].0, Strip(links[i].1))
  {
    assert links[..i + 1][..i] == links[..i];
  }

  /** Creating the empty list and then appending is `AddTitle`. */
  lemma {:induction false} AddTitleInTwoSteps(index: seq<(int, seq<string>)>, p: int, title: string)
    ensures Get(index, p).None? ==>
      (Get(Put(index, p, []), p) == Some([]) && Put(Put(index, p, []), p, [] + [title]) == AddTitle(index, p, title))
  {
    if Get(index, p).None? {
      var withKey := Put(index, p, []);
      assert withKey == index + [(p, [])];
      assert withKey[|index|] == (p, []);
      assert [] + [title] == [title];
      assert AddTitle(index, p, title) == Put(index, p, [title]);
      PutTwice(index, p, [], [title]);
    }
  }

  /**
   * What the index holds: its pages are the pages of the links, each once, in
   * order of first appearance, and each page maps to the stripped titles of
   * its links, in link order.
   */
  lemma {:induction false} ChapterIndexMeaning(links: seq<(int, string)>)
    ensures DistinctKeys(ChapterIndex(links))
    ensures Keys(ChapterIndex(links)) == FirstSeen(links)
    ensures forall i :: 0 <= i < |ChapterIndex(links)| ==>
      ChapterIndex(links)[i].1 == TitlesOn(links, ChapterIndex(links)[i].0)
  {
    if links != [] {
      var pre := links[..|links| - 1];
      var last := links[|links| - 1];
      assert links == pre + [last];
      ChapterIndexMeaning(pre);
      AddTitleKeepsMeaning(ChapterIndex(pre), pre, last.0, last.1);
    }
  }

  /** One more link keeps the index meaning what `ChapterIndexMeaning` says. */
  lemma {:induction false} AddTitleKeepsMeaning(ix: seq<(int, seq<string>)>, pre: seq<(int, string)>, p: int, text: string)
    requires DistinctKeys(ix) && Keys(ix) == FirstSeen(pre)
    requires forall i :: 0 <= i < |ix| ==> ix[i].1 == TitlesOn(pre, ix[i].0)
    ensures var links := pre + [(p, text)];
      var r := AddTitle(ix, p, Strip(text));
      && DistinctKeys(r)
      && Keys(r) == FirstSeen(links)
      && (forall i :: 0 <= i < |r| ==> r[i].1 == TitlesOn(links, r[i].0))
  {
    var links := pre + [(p, text)];
    assert links[..|links| - 1] == pre;
    var t := Strip(text);
    assert forall q :: TitlesOn(links, q) == TitlesOn(pre, q) + (if q == p then [t] else []);
    if p in FirstSeen(pre) {
      assert FirstSeen(links) == FirstSeen(pre);
      AddTitleSeen(ix, pre, p, t);
    } else {
      assert FirstSeen(links) == FirstSeen(pre) + [p];
      TitlesOnUnseen(pre, p);
      AddTitleNew(ix, p, t);
    }
  }

  lemma {:induction false} AddTitleSeen(ix: seq<(int, seq<string>)>, pre: seq<(int, string)>, p: int, t: string)
    requires DistinctKeys(ix) && p in Keys(ix)
    ensures var r := AddTitle(ix, p, t);
      && DistinctKeys(r)
      && Keys(r) == Keys(ix)
      && (forall i :: 0 <= i < |r| ==> r[i] == if ix[i].0 == p then (p, ix[i].1 + [t]) else ix[i])
  {
    var k :| 0 <= k < |ix| && Keys(ix)[k] == p;
    GetAt(ix, k);
    var r := AddTitle(ix, p, t);
    assert |r| == |ix|;
    assert Keys(r) == Keys(ix);
  }

  lemma {:induction false} AddTitleNew(ix: seq<(int, seq<string>)>, p: int, t: string)
    requires DistinctKeys(ix) && p !in Keys(ix)
    ensures AddTitle(ix, p, t) == ix + [(p, [t])]
    ensures Keys(ix + [(p, [t])]) == Keys(ix) + [p]
    ensures DistinctKeys(ix + [(p, [t])])
  {
    assert Get(ix, p).None? by {
      forall i | 0 <= i < |ix|
        ensures ix[i].0 != p
      {
        assert Keys(ix)[i] == ix[i].0;
      }
    }
    assert [] + [t] == [t];
  }

  lemma {:induction false} FirstSeenDistinct(links: seq<(int, string)>)
    ensures forall i, j :: 0 <= i < j < |FirstSeen(links)| ==> FirstSeen(links)[i] != FirstSeen(links)[j]
  {
    if links != [] {
      FirstSeenDistinct(links[..|links| - 1]);
    }
  }

  lemma {:induction false} TitlesOnUnseen(links: seq<(int, string)>, p: int)
    requires p !in FirstSeen(links)
    ensures TitlesOn(links, p) == []
  {
    if links != [] {
      TitlesOnUnseen(links[..|links| - 1], p);
    }
  }

  function TotalTitles(index: seq<(int, seq<string>)>): nat {
    if index == [] then 0 else |index[0].1| + TotalTitles(index[1..])
  }

  /** The number of titles of the pages in `keys` taken from `links`. */
  function CountOn(links: seq<(int, string)>, keys: seq<int>): nat {
    if keys == [] then 0 else |TitlesOn(links, keys[0])| + CountOn(links, keys[1..])
  }

  lemma {:induction false} TotalTitlesIsCountOn(links: seq<(int, string)>, index: seq<(int, seq<string>)>)
    requires forall i :: 0 <= i < |index| ==> index[i].1 == TitlesOn(links, index[i].0)
    ensures TotalTitles(index) == CountOn(links, Keys(index))
  {
    if index != [] {
      TotalTitlesIsCountOn(links, index[1..]);
      assert Keys(index)[1..] == Keys(index[1..]);
    }
  }

  /** Adding a link to page `p` adds one title to `p` and nothing elsewhere. */
  lemma {:induction false} CountOnStep(links: seq<(int, string)>, p: int, text: string, keys: seq<int>)
    requires forall i, j :: 0 <= i < j < |keys| ==> keys[i] != keys[j]
    ensures CountOn(links + [(p, text)], keys) == CountOn(links, keys) + (if p in keys then 1 else 0)
  {
    var ext := links + [(p, text)];
    assert ext[..|ext| - 1] == links;
    if keys != [] {
      CountOnStep(links, p, text, keys[1..]);
      assert keys[0] == p ==> p !in keys[1..];
    }
  }

  lemma {:induction false} CountOnAppendKey(links: seq<(int, string)>, keys: seq<int>, p: int)
    ensures CountOn(links, keys + [p]) == CountOn(links, keys) + |TitlesOn(links, p)|
  {
    if keys != [] {
      CountOnAppendKey(links, keys[1..], p);
      assert (keys + [p])[1..] == keys[1..] + [p];
    }
  }

  /** Every chapter link gives exactly one title of the index. */
  lemma {:induction false} ChapterIndexCountsEveryLink(links: seq<(int, string)>)
    ensures TotalTitles(ChapterIndex(links)) == |links|
  {
    ChapterIndexMeaning(links);
    TotalTitlesIsCountOn(links, ChapterIndex(links));
    CountOnAll(links);
  }

  lemma {:induction false} CountOnAll(links: seq<(int, string)>)
    ensures CountOn(links, FirstSeen(links)) == |links|
  {
    if links != [] {
      var pre := links[..|links| - 1];
      var (p, text) := links[|links| - 1];
      assert links == pre + [(p, text)];
      CountOnAll(pre);
      FirstSeenDistinct(pre);
      CountOnStep(pre, p, text, FirstSeen(pre));
      if p !in FirstSeen(pre) {
        CountOnAppendKey(links, FirstSeen(pre), p);
        TitlesOnUnseen(pre, p);
        assert TitlesOn(links, p) == [Strip(text)];
      }
    }
  }

  /** The index's pages are exactly the pages of the links. */
  lemma {:induction false} ChapterIndexPages(links: seq<(int, string)>)
    ensures DistinctKeys(ChapterIndex(links))
    ensures forall p :: p in Keys(ChapterIndex(links)) <==> exists i :: 0 <= i < |links| && links[i].0 == p
  {
    ChapterIndexMeaning(links);
    FirstSeenPages(links);
  }

  lemma {:induction false} FirstSeenPages(links: seq<(int, string)>)
    ensures forall p :: p in FirstSeen(links) <==> exists i :: 0 <= i < |links| && links[i].0 == p
  {
    if links != [] {
      var pre := links[..|links| - 1];
      FirstSeenPages(pre);
      forall p | p in FirstSeen(links)
        ensures exists i :: 0 <= i < |links| && links[i].0 == p
      {
        if p in FirstSeen(pre) {
          var i :| 0 <= i < |pre| && pre[i].0 == p;
          assert links[i].0 == p;
        }
      }
      forall p | exists i :: 0 <= i < |links| && links[i].0 == p
        ensures p in FirstSeen(links)
      {
        var i :| 0 <= i < |links| && links[i].0 == p;
        if i < |pre| { assert pre[i].0 == p; }
      }
    }
  }

  // ---------------------------------------------------------------------------
  // The chapter index cut to one volume

  /** The dict comprehension keeping the pages `start <= k <= end`, in order. */
  function NarrowChapters(index: seq<(int, seq<string>)>, start: int, end: int): (r: seq<(int, seq<string>)>)
    ensures forall e :: e in r <==> e in index && start <= e.0 <= end
    ensures DistinctKeys(index) ==> DistinctKeys(r)
  {
    if index == [] then []
    else
      var rest := NarrowChapters(index[1..], start, end);
      assert DistinctKeys(index) ==> forall e :: e in rest ==> e.0 != index[0].0;
      if end >= index[0].0 >= start then [index[0]] + rest else rest
  }

  /** The kept entries stay in the order of the index, as the dict comprehension keeps them. */
  lemma {:induction false} NarrowChaptersKeepsOrder(index: seq<(int, seq<string>)>, start: int, end: int)
    ensures IsSubsequence(NarrowChapters(index, start, end), index)
    decreases |index|
  {
    if index != [] {
      var rest := NarrowChapters(index[1..], start, end);
      NarrowChaptersKeepsOrder(index[1..], start, end);
      if end >= index[0].0 >= start {
        assert ([index[0]] + rest)[1..] == rest;
      }
    }
  }
}
