/**
 * `_update_hamesh` (shamela/exporters/epub.py, lines 117-190): the footnote
 * markers of a page's paragraphs become links to numbered asides, gathered
 * into one new footnote block in place of the page's first one.
 */
module Hamesh {
  import opened Common
  import opened Scan
  import opened Footnotes

  /**
   * `_is_aya_match`: the first curly-brace match with a marker in it contains
   * `number`, and the marker starts after the match does.
   */
  predicate IsAyaMatch(text: string, markerStart: nat, number: string) {
    match CurlyFrom(text, 0)
    case None => false
    case Some((a, e)) => Contains(text[a..e], number) && markerStart > a
  }

  // ---------------------------------------------------------------------------
  // Which markers of a paragraph become links

  /** `text[start..end]` to be replaced by `replacement`. */
  datatype Splice = Splice(start: nat, end: nat, replacement: string)

  /** The replacements of a paragraph, the asides they link to, and the next footnote number. */
  datatype Linking = Linking(splices: seq<Splice>, linked: seq<Aside>, next: nat)

  /** Splices within a text of length `n`, from `from` on, each after the one before. */
  predicate Ordered(sp: seq<Splice>, from: nat, n: nat)
    decreases |sp|
  {
    from <= n && (sp != [] ==> from <= sp[0].start <= sp[0].end <= n && Ordered(sp[1..], sp[0].end, n))
  }

  /**
   * The loop over the markers of one paragraph: a marker is skipped when no
   * item `count` is left or it is inside an aya; otherwise it is linked to
   * item `count` and the count moves on.
   */
  function LinkMarkers(p: string, ms: seq<(nat, nat)>, from: nat, items: map<int, Aside>, count: nat): (r: Linking)
    requires MarkerSpans(p, ms, from)
    ensures Ordered(r.splices, from, |p|)
    ensures |r.splices| == |r.linked| && r.next == count + |r.linked|
    decreases |ms|
  {
    if ms == [] then Linking([], [], count)
    else
      var (a, e) := ms[0];
      var number := p[a..e];
      if count !in items || IsAyaMatch(p, a, number) then LinkMarkers(p, ms[1..], e, items, count)
      else
        var rest := LinkMarkers(p, ms[1..], e, items, count + 1);
        Linking([Splice(a, e, FootnoteLink(count, number))] + rest.splices, [items[count]] + rest.linked, rest.next)
  }

  /**
   * Link `j` of `r` goes to item `count + j`, and replaces a marker outside
   * any aya by the link of footnote `count + j` whose text is that marker.
   */
  predicate LinkedAt(p: string, r: Linking, items: map<int, Aside>, count: nat, j: nat) {
    && j < |r.linked| && j < |r.splices|
    && count + j in items && r.linked[j] == items[count + j]
    && IsMarker(p, r.splices[j].start, r.splices[j].end)
    && r.splices[j].replacement == FootnoteLink(count + j, p[r.splices[j].start..r.splices[j].end])
    && !IsAyaMatch(p, r.splices[j].start, p[r.splices[j].start..r.splices[j].end])
  }

  /** A link in front shifts the later links by one. */
  lemma {:induction false} LinkedAtShift(p: string, r: Linking, rest: Linking, sp: Splice, item: Aside,
                                         items: map<int, Aside>, count: nat, j: nat)
    requires r.splices == [sp] + rest.splices && r.linked == [item] + rest.linked
    requires 0 < j && LinkedAt(p, rest, items, count + 1, j - 1)
    ensures LinkedAt(p, r, items, count, j)
  {
    assert r.linked[j] == rest.linked[j - 1] && r.splices[j] == rest.splices[j - 1];
  }

  /** The `j`-th link goes to item `count + j`, which is the `j`-th aside (see `LinkedAt`). */
  lemma {:induction false} LinkMarkersNumbering(p: string, ms: seq<(nat, nat)>, from: nat, items: map<int, Aside>,
                                                count: nat, j: nat)
    requires MarkerSpans(p, ms, from) && j < |LinkMarkers(p, ms, from, items, count).linked|
    ensures LinkedAt(p, LinkMarkers(p, ms, from, items, count), items, count, j)
    decreases |ms|
  {
    var (a, e) := ms[0];
    var r := LinkMarkers(p, ms, from, items, count);
    if count !in items || IsAyaMatch(p, a, p[a..e]) {
      assert r == LinkMarkers(p, ms[1..], e, items, count);
      LinkMarkersNumbering(p, ms[1..], e, items, count, j);
    } else {
      var rest := LinkMarkers(p, ms[1..], e, items, count + 1);
      if j > 0 {
        LinkMarkersNumbering(p, ms[1..], e, items, count + 1, j - 1);
        LinkedAtShift(p, r, rest, r.splices[0], items[count], items, count, j);
      }
    }
  }

  /** Once no item is left for the current count, no later marker of the paragraph is linked. */
  lemma {:induction false} LinkMarkersStopsWhenItemsRunOut(p: string, ms: seq<(nat, nat)>, from: nat, items: map<int, Aside>, count: nat)
    requires MarkerSpans(p, ms, from) && count !in items
    ensures LinkMarkers(p, ms, from, items, count) == Linking([], [], count)
    decreases |ms|
  {
    if ms != [] {
      LinkMarkersStopsWhenItemsRunOut(p, ms[1..], ms[0].1, items, count);
    }
  }

  // ---------------------------------------------------------------------------
  // Splicing the links into the paragraph

  /** `p[:start] + link + p[end:]`, with Python's clamping of slice bounds. */
  function ApplySplice(p: string, sp: Splice): string {
    var a := if sp.start <= |p| then sp.start else |p|;
    var e := if sp.end <= |p| then sp.end else |p|;
    p[..a] + sp.replacement + p[e..]
  }

  /** The splices applied last to first, as `_update_hamesh` does. */
  function SplicedRightToLeft(p: string, sp: seq<Splice>): string
    decreases |sp|
  {
    if sp == [] then p else SplicedRightToLeft(ApplySplice(p, sp[|sp| - 1]), sp[..|sp| - 1])
  }

  /** The intended paragraph: the text between the markers kept, each linked marker replaced by its link. */
  function Interleave(p: string, sp: seq<Splice>, from: nat): string
    requires Ordered(sp, from, |p|)
    decreases |sp|
  {
    if sp == [] then p[from..]
    else p[from..sp[0].start] + sp[0].replacement + Interleave(p, sp[1..], sp[0].end)
  }

  lemma {:induction false} OrderedWider(sp: seq<Splice>, from: nat, n: nat, m: nat)
    requires Ordered(sp, from, n) && n <= m
    ensures Ordered(sp, from, m)
    decreases |sp|
  {
    if sp != [] {
      OrderedWider(sp[1..], sp[0].end, n, m);
    }
  }

  /** Dropping the last splice: the others end before it starts. */
  lemma {:induction false} OrderedInit(sp: seq<Splice>, x: Splice, from: nat, n: nat)
    requires Ordered(sp + [x], from, n)
    ensures Ordered(sp, from, x.start) && x.start <= x.end <= n
    decreases |sp|
  {
    if sp == [] {
      assert ([] + [x])[1..] == [];
    } else {
      assert (sp + [x])[1..] == sp[1..] + [x];
      OrderedInit(sp[1..], x, sp[0].end, n);
    }
  }

  /** Splices within `a` do not touch what follows `a`. */
  lemma {:induction false} SplicedRightToLeftPrefix(a: string, b: string, sp: seq<Splice>, from: nat)
    requires Ordered(sp, from, |a|)
    ensures SplicedRightToLeft(a + b, sp) == SplicedRightToLeft(a, sp) + b
    decreases |sp|
  {
    if sp != [] {
      var init := sp[..|sp| - 1];
      var x := sp[|sp| - 1];
      assert sp == init + [x];
      OrderedInit(init, x, from, |a|);
      assert (a + b)[..x.start] == a[..x.start];
      assert (a + b)[x.end..] == a[x.end..] + b;
      assert ApplySplice(a + b, x) == ApplySplice(a, x) + b;
      OrderedWider(init, from, x.start, |ApplySplice(a, x)|);
      SplicedRightToLeftPrefix(ApplySplice(a, x), b, init, from);
    }
  }

  /** The interleaving, split before the last splice. */
  lemma {:induction false} InterleaveLast(p: string, sp: seq<Splice>, x: Splice, from: nat)
    requires Ordered(sp + [x], from, |p|)
    ensures Ordered(sp, from, x.start) && x.start <= x.end <= |p|
    ensures Interleave(p, sp + [x], from) == Interleave(p[..x.start], sp, from) + x.replacement + p[x.end..]
    decreases |sp|
  {
    OrderedInit(sp, x, from, |p|);
    if sp == [] {
      assert ([] + [x])[1..] == [];
    } else {
      var y := sp[0];
      var q := p[..x.start];
      assert (sp + [x])[0] == y && (sp + [x])[1..] == sp[1..] + [x];
      calc {
        Interleave(p, sp + [x], from);
        p[from..y.start] + y.replacement + Interleave(p, sp[1..] + [x], y.end);
      == { InterleaveLast(p, sp[1..], x, y.end); }
        p[from..y.start] + y.replacement + (Interleave(q, sp[1..], y.end) + x.replacement + p[x.end..]);
      == { assert q[from..y.start] == p[from..y.start]; }
        q[from..y.start] + y.replacement + Interleave(q, sp[1..], y.end) + x.replacement + p[x.end..];
        Interleave(q, sp, from) + x.replacement + p[x.end..];
      }
    }
  }

  /**
   * Applying the splices last to first gives the left-to-right interleaving:
   * earlier offsets stay valid because every splice only changes what
   * follows the ones before it.
   */
  lemma {:induction false} SplicingOrderIrrelevant(p: string, sp: seq<Splice>)
    requires Ordered(sp, 0, |p|)
    ensures SplicedRightToLeft(p, sp) == Interleave(p, sp, 0)
    decreases |sp|
  {
    if sp != [] {
      var init := sp[..|sp| - 1];
      var x := sp[|sp| - 1];
      assert sp == init + [x];
      InterleaveLast(p, init, x, 0);
      var a := p[..x.start];
      assert ApplySplice(p, x) == a + (x.replacement + p[x.end..]);
      SplicedRightToLeftPrefix(a, x.replacement + p[x.end..], init, 0);
      SplicingOrderIrrelevant(a, init);
    }
  }

  lemma {:induction false} AppendAssoc<T>(a: seq<T>, b: seq<T>, c: seq<T>)
    ensures a + b + c == a + (b + c)
  {
  }

  /** One step of `LinkMarkers`, with the first marker named. */
  lemma {:induction false} LinkMarkersUnfold(p: string, ms: seq<(nat, nat)>, from: nat, items: map<int, Aside>, count: nat)
    requires MarkerSpans(p, ms, from) && ms != []
    ensures MarkerSpans(p, ms[1..], ms[0].1)
    ensures var (a, e) := ms[0];
      var r := LinkMarkers(p, ms, from, items, count);
      if count in items && !IsAyaMatch(p, a, p[a..e]) then
        var rest := LinkMarkers(p, ms[1..], e, items, count + 1);
        r.splices == [Splice(a, e, FootnoteLink(count, p[a..e]))] + rest.splices
        && r.linked == [items[count]] + rest.linked && r.next == rest.next
      else r == LinkMarkers(p, ms[1..], e, items, count)
  {
  }

  /** What is chosen so far, followed by what the markers in `todo` add, is the whole linking. */
  predicate Accounts(p: string, todo: seq<(nat, nat)>, from: nat, items: map<int, Aside>,
                     splices: seq<Splice>, linked: seq<Aside>, next: nat, full: Linking)
    requires MarkerSpans(p, todo, from)
  {
    var r := LinkMarkers(p, todo, from, items, next);
    splices + r.splices == full.splices && linked + r.linked == full.linked && r.next == full.next
  }

  /** One marker of the loop: linked when the counter names an item and the marker is not an aya's. */
  method ChooseLink(p: string, todo: seq<(nat, nat)>, ghost from: nat, items: map<int, Aside>,
                    splices: seq<Splice>, linked: seq<Aside>, next: nat, ghost full: Linking)
    returns (splices': seq<Splice>, linked': seq<Aside>, next': nat)
    requires todo != [] && MarkerSpans(p, todo, from)
    requires Accounts(p, todo, from, items, splices, linked, next, full)
    ensures MarkerSpans(p, todo[1..], todo[0].1)
    ensures Accounts(p, todo[1..], todo[0].1, items, splices', linked', next', full)
  {
    var (a, e) := todo[0];
    LinkMarkersUnfold(p, todo, from, items, next);
    var number := p[a..e];
    splices', linked', next' := splices, linked, next;
    if next in items && !IsAyaMatch(p, a, number) {
      var sp := Splice(a, e, FootnoteLink(next, number));
      ghost var rest := LinkMarkers(p, todo[1..], e, items, next + 1);
      AppendAssoc(splices, [sp], rest.splices);
      AppendAssoc(linked, [items[next]], rest.linked);
      splices' := splices + [sp];
      linked' := linked + [items[next]];
      next' := next + 1;
    }
  }

  /** The loop over the markers of one paragraph (epub.py, lines 164-180). */
  method ChooseLinks(p: string, ms: seq<(nat, nat)>, items: map<int, Aside>, count: nat)
    returns (splices: seq<Splice>, linked: seq<Aside>, next: nat)
    requires MarkerSpans(p, ms, 0)
    ensures var r := LinkMarkers(p, ms, 0, items, count);
      splices == r.splices && linked == r.linked && next == r.next
  {
    ghost var full := LinkMarkers(p, ms, 0, items, count);
    splices, linked, next := [], [], count;
    var todo := ms;
    ghost var from := 0;
    while todo != []
      invariant MarkerSpans(p, todo, from)
      invariant Accounts(p, todo, from, items, splices, linked, next, full)
      decreases |todo|
    {
      splices, linked, next := ChooseLink(p, todo, from, items, splices, linked, next, full);
      from := todo[0].1;
      todo := todo[1..];
    }
  }

  /** `p_text = p_text[:start] + replacement + p_text[end:]` over the reversed replacements. */
  method SpliceRightToLeft(p: string, splices: seq<Splice>) returns (text: string)
    ensures text == SplicedRightToLeft(p, splices)
  {
    text := p;
    var j := |splices|;
    assert splices[..j] == splices;
    while j > 0
      invariant 0 <= j <= |splices|
      invariant SplicedRightToLeft(text, splices[..j]) == SplicedRightToLeft(p, splices)
    {
      assert splices[..j][..j - 1] == splices[..j - 1];
      text := ApplySplice(text, splices[j - 1]);
      j := j - 1;
    }
  }

  /** The marker loop and the splicing of one paragraph. */
  method LinkParagraph(p: string, items: map<int, Aside>, count: nat)
    returns (text: string, splices: seq<Splice>, linked: seq<Aside>, next: nat)
    ensures var r := LinkMarkers(p, Markers(p), 0, items, count);
      splices == r.splices && linked == r.linked && next == r.next && text == Interleave(p, r.splices, 0)
  {
    splices, linked, next := ChooseLinks(p, Markers(p), items, count);
    text := SpliceRightToLeft(p, splices);
    SplicingOrderIrrelevant(p, splices);
  }

  // ---------------------------------------------------------------------------
  // All paragraphs of a page

  /**
   * The paragraph loop: the `(original, rewritten)` pair of every paragraph in
   * which some marker was linked, the asides linked, and the next number.
   */
  datatype PageLinking = PageLinking(pairs: seq<(string, string)>, linked: seq<Aside>, next: nat)

  function LinkParagraphs(ps: seq<string>, items: map<int, Aside>, count: nat): (r: PageLinking)
    ensures r.next == count + |r.linked|
    decreases |ps|
  {
    if ps == [] then PageLinking([], [], count)
    else
      var l := LinkMarkers(ps[0], Markers(ps[0]), 0, items, count);
      var rest := LinkParagraphs(ps[1..], items, l.next);
      var pair := if l.splices == [] then [] else [(ps[0], Interleave(ps[0], l.splices, 0))];
      PageLinking(pair + rest.pairs, l.linked + rest.linked, rest.next)
  }

  /**
   * The counter runs across the paragraphs: the `j`-th aside linked on the
   * page is item `count + j`.
   */
  lemma {:induction false} LinkParagraphsNumbering(ps: seq<string>, items: map<int, Aside>, count: nat, j: nat)
    requires j < |LinkParagraphs(ps, items, count).linked|
    ensures count + j in items && LinkParagraphs(ps, items, count).linked[j] == items[count + j]
    decreases |ps|
  {
    var l := LinkMarkers(ps[0], Markers(ps[0]), 0, items, count);
    var rest := LinkParagraphs(ps[1..], items, l.next);
    if j < |l.linked| {
      LinkMarkersNumbering(ps[0], Markers(ps[0]), 0, items, count, j);
    } else {
      LinkParagraphsNumbering(ps[1..], items, l.next, j - |l.linked|);
    }
  }

  /** Once the items run out, no paragraph changes and nothing more is linked. */
  lemma {:induction false} LinkParagraphsStopWhenItemsRunOut(ps: seq<string>, items: map<int, Aside>, count: nat)
    requires count !in items
    ensures LinkParagraphs(ps, items, count) == PageLinking([], [], count)
    decreases |ps|
  {
    if ps != [] {
      LinkMarkersStopsWhenItemsRunOut(ps[0], Markers(ps[0]), 0, items, count);
      LinkParagraphsStopWhenItemsRunOut(ps[1..], items, count);
    }
  }

  /** The loop over the paragraphs (epub.py, lines 162-184). */
  method LinkAllParagraphs(ps: seq<string>, items: map<int, Aside>)
    returns (pairs: seq<(string, string)>, linked: seq<Aside>)
    ensures var r := LinkParagraphs(ps, items, 1);
      pairs == r.pairs && linked == r.linked
  {
    ghost var full := LinkParagraphs(ps, items, 1);
    pairs, linked := [], [];
    var count := 1;
    var todo := ps;
    while todo != []
      invariant var r := LinkParagraphs(todo, items, count);
        pairs + r.pairs == full.pairs && linked + r.linked == full.linked
      decreases |todo|
    {
      var p := todo[0];
      var text, splices, l, next := LinkParagraph(p, items, count);
      ghost var rest := LinkParagraphs(todo[1..], items, next);
      var pair := if splices == [] then [] else [(p, text)];
      AppendAssoc(pairs, pair, rest.pairs);
      AppendAssoc(linked, l, rest.linked);
      pairs := pairs + pair;
      linked := linked + l;
      count := next;
      todo := todo[1..];
    }
  }

  /** `new_content.replace(original, replacement)` over the reversed pairs. */
  function ReplacedPairs(s: string, pairs: seq<(string, string)>): string
    decreases |pairs|
  {
    if pairs == [] then s
    else
      var (original, replacement) := pairs[|pairs| - 1];
      ReplacedPairs(ReplaceAll(s, original, replacement), pairs[..|pairs| - 1])
  }

  method ReplacePairs(s: string, pairs: seq<(string, string)>) returns (r: string)
    ensures r == ReplacedPairs(s, pairs)
  {
    r := s;
    var j := |pairs|;
    assert pairs[..j] == pairs;
    while j > 0
      invariant 0 <= j <= |pairs|
      invariant ReplacedPairs(r, pairs[..j]) == ReplacedPairs(s, pairs)
    {
      assert pairs[..j][..j - 1] == pairs[..j - 1];
      r := ReplaceAll(r, pairs[j - 1].0, pairs[j - 1].1);
      j := j - 1;
    }
  }

  // ---------------------------------------------------------------------------
  // Ayah placeholders

  function Placeholder(k: nat): string {
    "PLACEHOLDER_" + NatToString(k)
  }

  /** `new_content.replace(aya, f'PLACEHOLDER_{idx}')` for idx = 1, 2, ... */
  function WithPlaceholders(s: string, ayat: seq<string>): string
    decreases |ayat|
  {
    if ayat == [] then s
    else ReplaceAll(WithPlaceholders(s, ayat[..|ayat| - 1]), ayat[|ayat| - 1], Placeholder(|ayat|))
  }

  method InsertPlaceholders(s: string, ayat: seq<string>) returns (r: string)
    ensures r == WithPlaceholders(s, ayat)
  {
    r := s;
    var idx := 0;
    while idx < |ayat|
      invariant 0 <= idx <= |ayat| && r == WithPlaceholders(s, ayat[..idx])
    {
      assert ayat[..idx + 1][..idx] == ayat[..idx];
      r := ReplaceAll(r, ayat[idx], Placeholder(idx + 1));
      idx := idx + 1;
    }
    assert ayat[..idx] == ayat;
  }

  /**
   * The restoring loop as written: `PLACEHOLDER_1` is put back first, so it
   * also matches the start of `PLACEHOLDER_10`, `PLACEHOLDER_11`, ...
   */
  function RestoredAyatAsWritten(s: string, ayat: seq<string>): string
    decreases |ayat|
  {
    if ayat == [] then s
    else ReplaceAll(RestoredAyatAsWritten(s, ayat[..|ayat| - 1]), Placeholder(|ayat|), ayat[|ayat| - 1])
  }

  /** The restoring loop with the highest index put back first. */
  function RestoredAyat(s: string, ayat: seq<string>): string
    decreases |ayat|
  {
    if ayat == [] then s
    else RestoredAyat(ReplaceAll(s, Placeholder(|ayat|), ayat[|ayat| - 1]), ayat[..|ayat| - 1])
  }

  method RestoreAyat(s: string, ayat: seq<string>) returns (r: string)
    ensures r == RestoredAyat(s, ayat)
  {
    r := s;
    var j := |ayat|;
    assert ayat[..j] == ayat;
    while j > 0
      invariant 0 <= j <= |ayat|
      invariant RestoredAyat(r, ayat[..j]) == RestoredAyat(s, ayat)
    {
      assert ayat[..j][..j - 1] == ayat[..j - 1];
      r := ReplaceAll(r, Placeholder(j), ayat[j - 1]);
      j := j - 1;
    }
  }

  /** No aya holds the placeholder prefix. */
  predicate NoPlaceholderText(ayat: seq<string>) {
    forall i :: 0 <= i < |ayat| ==> !Contains(ayat[i], "PLACEHOLDER_")
  }

  /** A text without the placeholder prefix has no placeholder to restore. */
  lemma {:induction false} RestoredAyatAbsent(s: string, ayat: seq<string>)
    requires !Contains(s, "PLACEHOLDER_")
    ensures RestoredAyat(s, ayat) == s
    decreases |ayat|
  {
    if ayat != [] {
      if Contains(s, Placeholder(|ayat|)) {
        ContainsPrefix(s, "PLACEHOLDER_", NatToString(|ayat|));
      }
      ReplaceAllAbsent(s, Placeholder(|ayat|), ayat[|ayat| - 1]);
      RestoredAyatAbsent(s, ayat[..|ayat| - 1]);
    }
  }

  /** A placeholder does not occur in another placeholder with a smaller index. */
  lemma {:induction false} PlaceholderNotInSmaller(k: nat, n: nat)
    requires k < n
    ensures !Contains(Placeholder(k), Placeholder(n))
  {
    if Contains(Placeholder(k), Placeholder(n)) {
      NatToStringLengthMonotone(k, n);
      ContainsSameLength(Placeholder(k), Placeholder(n));
      assert NatToString(k) == Placeholder(k)[12..] == Placeholder(n)[12..] == NatToString(n);
      NatToStringInjective(k, n);
    }
  }

  /** Restoring puts aya `k` back in place of `PLACEHOLDER_k`, for every `k`. */
  lemma {:induction false} RestoredAyatPlaceholder(k: nat, ayat: seq<string>)
    requires 1 <= k <= |ayat| && NoPlaceholderText(ayat)
    ensures RestoredAyat(Placeholder(k), ayat) == ayat[k - 1]
    decreases |ayat|
  {
    var n := |ayat|;
    var init := ayat[..n - 1];
    if k == n {
      ReplaceAllWhole(Placeholder(n), ayat[n - 1]);
      RestoredAyatAbsent(ayat[n - 1], init);
    } else {
      PlaceholderNotInSmaller(k, n);
      ReplaceAllAbsent(Placeholder(k), Placeholder(n), ayat[n - 1]);
      RestoredAyatPlaceholder(k, init);
    }
  }

  /** Appending a digit to a text without the placeholder prefix does not create a placeholder. */
  lemma {:induction false} NoPlaceholderAfterDigit(a: string, n: nat)
    requires !Contains(a, "PLACEHOLDER_")
    ensures !Contains(a + "0", Placeholder(n))
  {
    var s := a + "0";
    var p := Placeholder(n);
    forall i | 0 <= i <= |s|
      ensures !OccursAt(s, p, i)
    {
      if i + |p| <= |s| {
        assert !OccursAt(a, "PLACEHOLDER_", i);
        assert i + 12 <= |a|;
        assert s[i..i + 12] == a[i..i + 12];
        assert p[..12] == "PLACEHOLDER_";
        assert s[i..i + |p|][..12] == s[i..i + 12];
      }
    }
  }

  /** Restoring the as-written way changes nothing more in a text without the prefix. */
  lemma {:induction false} RestoredAsWrittenTail(s: string, ayat: seq<string>, m: nat)
    requires 1 <= m <= |ayat| && NoPlaceholderText(ayat)
    requires RestoredAyatAsWritten(s, ayat[..1]) == ayat[0] + "0"
    ensures RestoredAyatAsWritten(s, ayat[..m]) == ayat[0] + "0"
    decreases m
  {
    if m > 1 {
      RestoredAsWrittenTail(s, ayat, m - 1);
      assert ayat[..m][..m - 1] == ayat[..m - 1];
      NoPlaceholderAfterDigit(ayat[0], m);
      ReplaceAllAbsent(ayat[0] + "0", Placeholder(m), ayat[m - 1]);
    }
  }

  /**
   * With ten ayat or more, the tenth placeholder is restored as the first aya
   * followed by "0" rather than as the tenth aya.
   */
  lemma {:induction false} AsWrittenRestoresTenthWrongly(ayat: seq<string>)
    requires |ayat| >= 10 && NoPlaceholderText(ayat)
    requires forall i :: 0 <= i < |ayat| ==> ayat[i] != [] && ayat[i][|ayat[i]| - 1] == AyahClose
    ensures RestoredAyatAsWritten(Placeholder(10), ayat) == ayat[0] + "0" != ayat[9]
  {
    assert Placeholder(10) == Placeholder(1) + "0";
    assert Placeholder(10)[..|Placeholder(1)|] == Placeholder(1);
    assert Placeholder(10)[|Placeholder(1)|..] == "0";
    ReplaceAllAbsent("0", Placeholder(1), ayat[0]);
    assert ReplaceAll(Placeholder(10), Placeholder(1), ayat[0]) == ayat[0] + "0";
    assert RestoredAyatAsWritten(Placeholder(10), ayat[..1]) == ayat[0] + "0";
    RestoredAsWrittenTail(Placeholder(10), ayat, |ayat|);
    assert ayat[..|ayat|] == ayat;
    assert (ayat[0] + "0")[|ayat[0]|] == '0';
  }

  /** A placeholder holds no footnote marker. */
  lemma {:induction false} PlaceholderHasNoMarker(k: nat)
    ensures Markers(Placeholder(k)) == []
  {
  }

  // ---------------------------------------------------------------------------
  // The page

  /** The asides linked on the page, in the order of their links. */
  function LinkedAsides(blocks: seq<string>, ps: seq<string>): seq<Aside> {
    LinkParagraphs(ps, HameshItems(blocks) - {0}, 1).linked
  }

  /** The children of the new footnote block: the continuation, if any, then the linked asides. */
  function NewAsides(blocks: seq<string>, ps: seq<string>): seq<Aside> {
    var items := HameshItems(blocks);
    (if 0 in items then [items[0]] else []) + LinkedAsides(blocks, ps)
  }

  /** Key 0 holds the continuation; key `k > 0` holds footnote `k`. */
  lemma {:induction false} ItemUnderKey(blocks: seq<string>, k: int)
    ensures k == 0 ==> (k in HameshItems(blocks) <==> LastContinuation(blocks).Some?)
    ensures k == 0 && k in HameshItems(blocks) ==> HameshItems(blocks)[k] == LastContinuation(blocks).value
    ensures k != 0 ==> (k in HameshItems(blocks) <==> 1 <= k <= |AllNotes(blocks)|)
    ensures k != 0 && k in HameshItems(blocks) ==> HameshItems(blocks)[k] == NoteAside(k, AllNotes(blocks)[k - 1])
  {
    NoteItemsNumbering(AllNotes(blocks));
  }

  /** The `j`-th linked aside is footnote `j + 1`. */
  lemma {:induction false} LinkedAsideNumbered(blocks: seq<string>, ps: seq<string>, j: nat)
    requires j < |LinkedAsides(blocks, ps)|
    ensures j < |AllNotes(blocks)| && LinkedAsides(blocks, ps)[j] == NoteAside(j + 1, AllNotes(blocks)[j])
  {
    LinkParagraphsNumbering(ps, HameshItems(blocks) - {0}, 1, j);
    ItemUnderKey(blocks, j + 1);
  }

  /**
   * The new footnote block holds the continuation of the last block that has
   * one, then footnotes 1, 2, ..., m in order for some m up to the number of
   * footnotes: footnote k keeps its marker and text and is numbered k.
   */
  lemma {:induction false} NewAsidesInOrder(blocks: seq<string>, ps: seq<string>)
    ensures NewAsides(blocks, ps) ==
      (match LastContinuation(blocks) case Some(c) => [c] case None => []) + LinkedAsides(blocks, ps)
    ensures |LinkedAsides(blocks, ps)| <= |AllNotes(blocks)|
    ensures forall j :: 0 <= j < |LinkedAsides(blocks, ps)| ==>
      LinkedAsides(blocks, ps)[j] == NoteAside(j + 1, AllNotes(blocks)[j])
  {
    ItemUnderKey(blocks, 0);
    var linked := LinkedAsides(blocks, ps);
    if linked != [] {
      LinkedAsideNumbered(blocks, ps, |linked| - 1);
    }
    forall j | 0 <= j < |linked|
      ensures linked[j] == NoteAside(j + 1, AllNotes(blocks)[j])
    {
      LinkedAsideNumbered(blocks, ps, j);
    }
  }

  /**
   * `_update_hamesh` on a page whose first `<div>` is `div`, whose footnote
   * blocks are `blocks` and whose other paragraphs are `paragraphs`; `parse`
   * gives the paragraphs of a re-parsed text.
   */
  function UpdatedPage(div: string, blocks: seq<string>, paragraphs: seq<string>, parse: string -> seq<string>): string {
    if blocks == [] then div
    else
      var ayat := AyahSpans(Concat(paragraphs));
      var masked := WithPlaceholders(div, ayat);
      var ps := if ayat == [] then paragraphs else parse(masked);
      var pairs := LinkParagraphs(ps, HameshItems(blocks) - {0}, 1).pairs;
      var restored := RestoredAyat(ReplacedPairs(masked, pairs), ayat);
      ReplaceAll(restored, blocks[0], RenderBlock(NewAsides(blocks, ps)))
  }

  method UpdateHamesh(div: string, blocks: seq<string>, paragraphs: seq<string>, parse: string -> seq<string>)
    returns (r: string)
    ensures r == UpdatedPage(div, blocks, paragraphs, parse)
    ensures blocks == [] ==> r == div
  {
    if blocks == [] {
      return div;
    }
    var items := GetHameshItems(blocks);
    var newHamesh := if 0 in items then [items[0]] else [];
    items := items - {0};
    var ayat := AyahSpans(Concat(paragraphs));
    var content := InsertPlaceholders(div, ayat);
    var ps := paragraphs;
    if ayat != [] {
      ps := parse(content);
    }
    var pairs, linked := LinkAllParagraphs(ps, items);
    newHamesh := newHamesh + linked;
    content := ReplacePairs(content, pairs);
    content := RestoreAyat(content, ayat);
    r := ReplaceAll(content, blocks[0], RenderBlock(newHamesh));
  }
}
