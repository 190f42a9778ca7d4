/**
 * Chapter titles as headings in the EPUB exporter
 * (shamela/exporters/epub.py): `create_toc_depth_map` and
 * `replace_titles_with_headers`.
 */
module Headings {
  import opened Common
  import opened Toc

  /** `max(2, min(depth, 6))`. */
  function Clamp(depth: int): (r: int)
    ensures 2 <= r <= 6
    ensures 2 <= depth <= 6 ==> r == depth
    ensures depth < 2 ==> r == 2
    ensures depth > 6 ==> r == 6
  {
    if depth < 2 then 2 else if depth > 6 then 6 else depth
  }

  // ---------------------------------------------------------------------------
  // create_toc_depth_map

  /** The depth map after the loop over `toc`, which sits at nesting `depth`. */
  function DepthMapOf(toc: seq<Item>, dm: map<string, int>, depth: int): map<string, int>
    decreases toc
  {
    if toc == [] then dm
    else
      var dm' := match toc[0]
        case Leaf(_, text) => dm[text := Clamp(depth)]
        case Nested(xs) => DepthMapOf(xs, dm, depth + 1);
      DepthMapOf(toc[1..], dm', depth)
  }

  method CreateTocDepthMap(toc: seq<Item>, dm: map<string, int>, depth: int) returns (r: map<string, int>)
    ensures r == DepthMapOf(toc, dm, depth)
    decreases toc
  {
    r := dm;
    var i := 0;
    while i < |toc|
      invariant 0 <= i <= |toc|
      invariant DepthMapOf(toc[i..], r, depth) == DepthMapOf(toc, dm, depth)
      decreases |toc| - i
    {
      assert toc[i..][1..] == toc[i + 1..];
      match toc[i] {
        case Leaf(_, text) =>
          r := r[text := Clamp(depth)];
        case Nested(xs) =>
          assert toc[i] in toc;
          r := CreateTocDepthMap(xs, r, depth + 1);
      }
      i := i + 1;
    }
  }

  /** The titles of the tree in reading order, each with its nesting depth. */
  function LeafDepths(toc: seq<Item>, depth: int): seq<(string, int)>
    decreases toc
  {
    if toc == [] then []
    else
      (match toc[0]
       case Leaf(_, text) => [(text, depth)]
       case Nested(xs) => LeafDepths(xs, depth + 1))
      + LeafDepths(toc[1..], depth)
  }

  /** Entering the titles one by one, a later one overwriting an earlier. */
  function PutDepths(dm: map<string, int>, ds: seq<(string, int)>): map<string, int>
    decreases |ds|
  {
    if ds == [] then dm else PutDepths(dm[ds[0].0 := Clamp(ds[0].1)], ds[1..])
  }

  lemma {:induction false} PutDepthsAppend(dm: map<string, int>, a: seq<(string, int)>, b: seq<(string, int)>)
    ensures PutDepths(dm, a + b) == PutDepths(PutDepths(dm, a), b)
    decreases |a|
  {
    if a != [] {
      assert (a + b)[1..] == a[1..] + b;
      PutDepthsAppend(dm[a[0].0 := Clamp(a[0].1)], a[1..], b);
    } else {
      assert a + b == b;
    }
  }

  /** The recursive loops enter the titles in reading order, one level deeper per nested list. */
  lemma {:induction false} DepthMapIsFlat(toc: seq<Item>, dm: map<string, int>, depth: int)
    ensures DepthMapOf(toc, dm, depth) == PutDepths(dm, LeafDepths(toc, depth))
    decreases toc
  {
    if toc != [] {
      match toc[0]
      case Leaf(_, text) =>
        DepthMapIsFlat(toc[1..], dm[text := Clamp(depth)], depth);
        PutDepthsAppend(dm, [(text, depth)], LeafDepths(toc[1..], depth));
      case Nested(xs) =>
        DepthMapIsFlat(xs, dm, depth + 1);
        DepthMapIsFlat(toc[1..], DepthMapOf(xs, dm, depth + 1), depth);
        PutDepthsAppend(dm, LeafDepths(xs, depth + 1), LeafDepths(toc[1..], depth));
    }
  }

  /** A title's entry is the clamped depth of its last occurrence. */
  lemma {:induction false} PutDepthsLastWins(dm: map<string, int>, ds: seq<(string, int)>, i: nat)
    requires i < |ds| && forall j :: i < j < |ds| ==> ds[j].0 != ds[i].0
    ensures ds[i].0 in PutDepths(dm, ds) && PutDepths(dm, ds)[ds[i].0] == Clamp(ds[i].1)
    decreases |ds|
  {
    if i > 0 {
      PutDepthsLastWins(dm[ds[0].0 := Clamp(ds[0].1)], ds[1..], i - 1);
    } else {
      PutDepthsUntouched(dm[ds[0].0 := Clamp(ds[0].1)], ds[1..], ds[0].0);
    }
  }

  /** A title that does not come up keeps its entry. */
  lemma {:induction false} PutDepthsUntouched(dm: map<string, int>, ds: seq<(string, int)>, t: string)
    requires forall j :: 0 <= j < |ds| ==> ds[j].0 != t
    ensures t in dm ==> t in PutDepths(dm, ds) && PutDepths(dm, ds)[t] == dm[t]
    ensures t !in dm ==> t !in PutDepths(dm, ds)
    decreases |ds|
  {
    if ds != [] {
      PutDepthsUntouched(dm[ds[0].0 := Clamp(ds[0].1)], ds[1..], t);
    }
  }

  /** Every depth in the map lies in 2..6 when the map starts that way. */
  lemma {:induction false} PutDepthsInRange(dm: map<string, int>, ds: seq<(string, int)>)
    requires forall t :: t in dm ==> 2 <= dm[t] <= 6
    ensures forall t :: t in PutDepths(dm, ds) ==> 2 <= PutDepths(dm, ds)[t] <= 6
    decreases |ds|
  {
    if ds != [] {
      PutDepthsInRange(dm[ds[0].0 := Clamp(ds[0].1)], ds[1..]);
    }
  }

  /**
   * `create_toc_depth_map(toc)`: the title of the `i`-th link in reading
   * order maps to its clamped nesting depth when no later link repeats it,
   * and every entry lies in 2..6.
   */
  lemma {:induction false} DepthMapLastWins(toc: seq<Item>, i: nat)
    requires i < |LeafDepths(toc, 1)|
    requires forall j :: i < j < |LeafDepths(toc, 1)| ==> LeafDepths(toc, 1)[j].0 != LeafDepths(toc, 1)[i].0
    ensures var (t, d) := LeafDepths(toc, 1)[i];
      t in DepthMapOf(toc, map[], 1) && DepthMapOf(toc, map[], 1)[t] == Clamp(d)
    ensures forall t :: t in DepthMapOf(toc, map[], 1) ==> 2 <= DepthMapOf(toc, map[], 1)[t] <= 6
  {
    DepthMapIsFlat(toc, map[], 1);
    PutDepthsLastWins(map[], LeafDepths(toc, 1), i);
    PutDepthsInRange(map[], LeafDepths(toc, 1));
  }

  /** The titles of `LeafDepths` are the links of the tree. */
  lemma {:induction false} LeafDepthsAreLeaves(toc: seq<Item>, depth: int)
    ensures |LeafDepths(toc, depth)| == |Leaves(toc)|
    ensures forall i :: 0 <= i < |Leaves(toc)| ==> LeafDepths(toc, depth)[i].0 == Leaves(toc)[i].1
    decreases toc
  {
    if toc != [] {
      LeafDepthsAreLeaves(toc[1..], depth);
      match toc[0]
      case Leaf(_, _) =>
      case Nested(xs) => LeafDepthsAreLeaves(xs, depth + 1);
    }
  }

  /** A nested list is one level deeper: a top-level title gets 2, the titles one list down 2 too, then 3, ... */
  lemma {:induction false} NestedIsDeeper(xs: seq<Item>, rest: seq<Item>, depth: int)
    ensures LeafDepths([Nested(xs)] + rest, depth) == LeafDepths(xs, depth + 1) + LeafDepths(rest, depth)
  {
    assert ([Nested(xs)] + rest)[1..] == rest;
  }

  // ---------------------------------------------------------------------------
  // replace_titles_with_headers

  const TitleOpen: string := "<p><span class=\""

  /**
   * `<p><span class="([^"]*)">\[[^\]]*\]</span></p>` at `i`: the class runs
   * to the first `"`, the bracketed title to the first `]`, so the match is
   * unique when there is one.  Gives the class.
   */
  function TitleAt(s: string, i: nat): Option<string>
    requires i <= |s|
  {
    if !OccursAt(s, TitleOpen, i) then None
    else
      var j := i + |TitleOpen|;
      match IndexOfFrom(s, "\"", j)
      case None => None
      case Some(q) =>
        if !OccursAt(s, "\">[", q) then None
        else
          match IndexOfFrom(s, "]", q + 3)
          case None => None
          case Some(b) => if OccursAt(s, "]</span></p>", b) then Some(s[j..q]) else None
  }

  /** `TITLE_PATTERN.search(text)`: the class of the leftmost title paragraph. */
  function FirstTitleFrom(s: string, i: nat): Option<string>
    requires i <= |s|
    decreases |s| - i
  {
    match TitleAt(s, i)
    case Some(c) => Some(c)
    case None => if i == |s| then None else FirstTitleFrom(s, i + 1)
  }

  /** The header level of a title: its depth, 2 when it has none, clamped to 2..6. */
  function HeaderLevel(toc: map<string, int>, title: string): (level: int)
    ensures 2 <= level <= 6
    ensures title !in toc ==> level == 2
    ensures title in toc && 2 <= toc[title] <= 6 ==> level == toc[title]
  {
    Clamp(if title in toc then toc[title] else 2)
  }

  function TitleParagraph(c: string, title: string): string {
    "<p><span class=\"" + c + "\">[" + title + "]</span></p>"
  }

  function Header(level: int, c: string, title: string): string {
    "<h" + IntToString(level) + " class=\"" + c + "\">" + title + "</h" + IntToString(level) + ">"
  }

  /** One title of the loop. */
  function ReplaceTitle(text: string, title: string, toc: map<string, int>): string {
    if !Contains(text, "[" + title + "]") then text
    else
      match FirstTitleFrom(text, 0)
      case None => text
      case Some(c) => ReplaceAll(text, TitleParagraph(c, title), Header(HeaderLevel(toc, title), c, title))
  }

  function ReplacedTitles(titles: seq<string>, text: string, toc: map<string, int>): string
    decreases |titles|
  {
    if titles == [] then text
    else ReplaceTitle(ReplacedTitles(titles[..|titles| - 1], text, toc), titles[|titles| - 1], toc)
  }

  method ReplaceTitlesWithHeaders(titles: seq<string>, text: string, toc: map<string, int>) returns (r: string)
    ensures r == ReplacedTitles(titles, text, toc)
  {
    r := text;
    var i := 0;
    while i < |titles|
      invariant 0 <= i <= |titles| && r == ReplacedTitles(titles[..i], text, toc)
    {
      assert titles[..i + 1][..i] == titles[..i];
      var title := titles[i];
      if Contains(r, "[" + title + "]") {
        var m := FirstTitleFrom(r, 0);
        if m.Some? {
          var level := HeaderLevel(toc, title);
          r := ReplaceAll(r, TitleParagraph(m.value, title), Header(level, m.value, title));
        }
      }
      i := i + 1;
    }
    assert titles[..i] == titles;
  }

  /**
   * Only the class of the first title paragraph on the page is tried: a title
   * whose paragraph carries another class stays a paragraph.
   */
  lemma {:induction false} TitleWithOtherClassKept(text: string, title: string, toc: map<string, int>, c: string)
    requires FirstTitleFrom(text, 0) == Some(c)
    requires !Contains(text, TitleParagraph(c, title))
    ensures ReplaceTitle(text, title, toc) == text
  {
    ReplaceAllAbsent(text, TitleParagraph(c, title), Header(HeaderLevel(toc, title), c, title));
  }

  /**
   * A title in brackets whose paragraph carries the class of the first title
   * paragraph on the page becomes a header of its level with that class.
   */
  lemma {:induction false} TitleBecomesHeader(text: string, title: string, toc: map<string, int>, c: string)
    requires Contains(text, "[" + title + "]")
    requires FirstTitleFrom(text, 0) == Some(c)
    requires Contains(text, TitleParagraph(c, title))
    ensures Contains(ReplaceTitle(text, title, toc), Header(HeaderLevel(toc, title), c, title))
  {
    ReplaceAllIntroduces(text, TitleParagraph(c, title), Header(HeaderLevel(toc, title), c, title));
  }

  /** Titles that do not appear in brackets leave the text as it is. */
  lemma {:induction false} TitlesAbsentNoChange(titles: seq<string>, text: string, toc: map<string, int>)
    requires forall i :: 0 <= i < |titles| ==> !Contains(text, "[" + titles[i] + "]")
    ensures ReplacedTitles(titles, text, toc) == text
    decreases |titles|
  {
    if titles != [] {
      TitlesAbsentNoChange(titles[..|titles| - 1], text, toc);
    }
  }
}
