/**
 * The regular expressions of the EPUB exporter (shamela/exporters/epub.py,
 * lines 13-20), written as scanners over the text with the matching rules of
 * Python's `re`: leftmost match, lazy `+?`, `.` matching anything but `\n`.
 */
module Scan {
  import opened Common

  /** `[٠-٩]`: an Arabic-Indic digit. */
  predicate IsArabicDigit(c: char) {
    '\U{0660}' <= c <= '\U{0669}'
  }

  /** `s[i..j]` is a footnote marker: `(`, one or more Arabic-Indic digits, `)`. */
  predicate IsMarker(s: string, i: int, j: int) {
    && 0 <= i && i + 3 <= j <= |s|
    && s[i] == '(' && s[j - 1] == ')'
    && forall k :: i < k < j - 1 ==> IsArabicDigit(s[k])
  }

  /** The end of the run of Arabic-Indic digits starting at `i`. */
  function DigitRunEnd(s: string, i: nat): (j: nat)
    requires i <= |s|
    ensures i <= j <= |s|
    ensures forall k :: i <= k < j ==> IsArabicDigit(s[k])
    ensures j < |s| ==> !IsArabicDigit(s[j])
    decreases |s| - i
  {
    if i < |s| && IsArabicDigit(s[i]) then DigitRunEnd(s, i + 1) else i
  }

  /** `ARABIC_NUMBER_BETWEEN_BRACKETS_PATTERN` matched at `i`: the end of the marker. */
  function MarkerAt(s: string, i: nat): (r: Option<nat>)
    ensures r.Some? ==> IsMarker(s, i, r.value)
    ensures r.None? ==> forall j :: !IsMarker(s, i, j)
  {
    if i < |s| && s[i] == '(' then
      var j := DigitRunEnd(s, i + 1);
      if j > i + 1 && j < |s| && s[j] == ')' then Some(j + 1) else None
    else None
  }

  /** A marker has one end only. */
  lemma {:induction false} MarkerEndUnique(s: string, i: int, j: int, j': int)
    requires IsMarker(s, i, j) && IsMarker(s, i, j')
    ensures j == j'
  {
  }

  /** `ms` are markers of `s`, from index `from` on, each after the one before. */
  predicate MarkerSpans(s: string, ms: seq<(nat, nat)>, from: nat)
    decreases |ms|
  {
    from <= |s| && (ms != [] ==> from <= ms[0].0 && IsMarker(s, ms[0].0, ms[0].1) && MarkerSpans(s, ms[1..], ms[0].1))
  }

  /** `finditer` of the marker pattern from index `i`: the `(start, end)` of each match. */
  function MarkersFrom(s: string, i: nat): (ms: seq<(nat, nat)>)
    requires i <= |s|
    ensures MarkerSpans(s, ms, i)
    decreases |s| - i
  {
    if i == |s| then []
    else match MarkerAt(s, i)
      case Some(j) => [(i, j)] + MarkersFrom(s, j)
      case None => MarkersFrom(s, i + 1)
  }

  function Markers(s: string): (ms: seq<(nat, nat)>)
    ensures MarkerSpans(s, ms, 0)
  {
    MarkersFrom(s, 0)
  }

  /** Two markers never overlap: the scan misses none of them. */
  lemma {:induction false} MarkersFromComplete(s: string, i: nat, a: nat, b: nat)
    requires i <= a && i <= |s| && IsMarker(s, a, b)
    ensures (a, b) in MarkersFrom(s, i)
    decreases |s| - i
  {
    if i < |s| {
      match MarkerAt(s, i)
      case Some(j) =>
        if i == a {
          MarkerEndUnique(s, a, b, j);
        } else {
          // `a` cannot start inside the marker `s[i..j]`: only its first character is `(`.
          assert j <= a;
          MarkersFromComplete(s, j, a, b);
        }
      case None =>
        MarkersFromComplete(s, i + 1, a, b);
    }
  }

  lemma {:induction false} MarkerSpansSound(s: string, ms: seq<(nat, nat)>, from: nat, a: nat, b: nat)
    requires MarkerSpans(s, ms, from) && (a, b) in ms
    ensures from <= a && IsMarker(s, a, b)
    decreases |ms|
  {
    if ms[0] != (a, b) {
      MarkerSpansSound(s, ms[1..], ms[0].1, a, b);
    }
  }

  /** Exactly the markers of `s`, in order. */
  lemma {:induction false} MarkersExact(s: string)
    ensures forall a, b :: (a, b) in Markers(s) <==> IsMarker(s, a, b)
  {
    forall a: nat, b: nat | IsMarker(s, a, b)
      ensures (a, b) in Markers(s)
    {
      MarkersFromComplete(s, 0, a, b);
    }
    forall a: nat, b: nat | (a, b) in Markers(s)
      ensures IsMarker(s, a, b)
    {
      MarkerSpansSound(s, Markers(s), 0, a, b);
    }
  }

  // ---------------------------------------------------------------------------
  // ARABIC_NUMBER_BETWEEN_CURLY_BRACES_PATTERN: `{.+?(marker).+?}`

  /** No `\n` in `s[i..j]`: `.` can consume it. */
  predicate OnOneLine(s: string, i: int, j: int)
    requires 0 <= i <= j <= |s|
  {
    forall k :: i <= k < j ==> s[k] != '\n'
  }

  /** The first `}` at or after `t`, provided no `\n` comes before it. */
  function BraceFrom(s: string, t: nat): (r: Option<nat>)
    requires t <= |s|
    ensures r.Some? ==> t <= r.value < |s| && s[r.value] == '}' && OnOneLine(s, t, r.value)
    decreases |s| - t
  {
    if t == |s| then None
    else if s[t] == '}' then Some(t)
    else if s[t] == '\n' then None
    else BraceFrom(s, t + 1)
  }

  /** `.+?}` from `m`: the index of the closing brace. */
  function TailClose(s: string, m: nat): (r: Option<nat>)
    requires m <= |s|
    ensures r.Some? ==> m < r.value < |s| && s[r.value] == '}' && OnOneLine(s, m, r.value)
  {
    if m < |s| && s[m] != '\n' then BraceFrom(s, m + 1) else None
  }

  /**
   * The lazy `.+?` before the marker, from `q` on: the first marker start
   * whose tail closes, with the closing brace.
   */
  function HeadFrom(s: string, q: nat): (r: Option<(nat, nat)>)
    requires q <= |s|
    ensures r.Some? ==> q <= r.value.0 && r.value.0 < r.value.1 < |s| && MarkerAt(s, r.value.0).Some?
    ensures r.Some? ==> s[r.value.1] == '}' && OnOneLine(s, q, r.value.1)
    decreases |s| - q
  {
    if q == |s| then None
    else
      var here := match MarkerAt(s, q)
        case Some(m) => TailClose(s, m)
        case None => None;
      if here.Some? then Some((q, here.value))
      else if s[q] == '\n' then None
      else HeadFrom(s, q + 1)
  }

  /** The curly pattern matched at `p`: the end of the match. */
  function CurlyAt(s: string, p: nat): (r: Option<nat>)
    ensures r.Some? ==> p + 5 < r.value <= |s| && s[p] == '{' && s[r.value - 1] == '}'
  {
    if p + 2 <= |s| && s[p] == '{' && s[p + 1] != '\n' then
      match HeadFrom(s, p + 2)
      case Some((_, close)) => Some(close + 1)
      case None => None
    else None
  }

  /** `search` of the curly pattern from `p`: the leftmost match `(start, end)`. */
  function CurlyFrom(s: string, p: nat): (r: Option<(nat, nat)>)
    requires p <= |s|
    ensures r.Some? ==> p <= r.value.0 < r.value.1 <= |s| && CurlyAt(s, r.value.0) == Some(r.value.1)
    decreases |s| - p
  {
    if CurlyAt(s, p).Some? then Some((p, CurlyAt(s, p).value))
    else if p == |s| then None
    else CurlyFrom(s, p + 1)
  }

  /** The search finds the leftmost match, and finds one whenever there is one. */
  lemma {:induction false} CurlyFromLeftmost(s: string, p: nat, k: nat)
    requires p <= k && p <= |s|
    requires CurlyAt(s, k).Some?
    ensures CurlyFrom(s, p).Some? && CurlyFrom(s, p).value.0 <= k
    decreases |s| - p
  {
    if CurlyAt(s, p).None? && p < |s| {
      CurlyFromLeftmost(s, p + 1, k);
    }
  }

  // ---------------------------------------------------------------------------
  // AYAH_PATTERN: `﴿[\s\S]+?﴾`

  const AyahOpen: char := '\U{FD3F}'
  const AyahClose: char := '\U{FD3E}'

  /** The first ayah closing bracket at or after `t`. */
  function CloseFrom(s: string, t: nat): (r: Option<nat>)
    requires t <= |s|
    ensures r.Some? ==> t <= r.value < |s| && s[r.value] == AyahClose
    decreases |s| - t
  {
    if t == |s| then None
    else if s[t] == AyahClose then Some(t)
    else CloseFrom(s, t + 1)
  }

  /** The lazy `[\s\S]+?` stops at the first closing bracket. */
  lemma {:induction false} CloseFromFirst(s: string, t: nat, k: nat)
    requires t <= k < |s| && s[k] == AyahClose
    ensures CloseFrom(s, t).Some? && CloseFrom(s, t).value <= k
    decreases |s| - t
  {
    if s[t] != AyahClose {
      CloseFromFirst(s, t + 1, k);
    }
  }

  /** `findall` of the ayah pattern from `i`: the matched spans, in order. */
  function AyahSpansFrom(s: string, i: nat): (spans: seq<string>)
    requires i <= |s|
    ensures forall k :: 0 <= k < |spans| ==>
      |spans[k]| >= 3 && spans[k][0] == AyahOpen && spans[k][|spans[k]| - 1] == AyahClose
    decreases |s| - i
  {
    if i + 2 > |s| then []
    else if s[i] == AyahOpen then
      match CloseFrom(s, i + 2)
      case Some(c) => [s[i..c + 1]] + AyahSpansFrom(s, c + 1)
      case None => AyahSpansFrom(s, i + 1)
    else AyahSpansFrom(s, i + 1)
  }

  function AyahSpans(s: string): seq<string> {
    AyahSpansFrom(s, 0)
  }

  // ---------------------------------------------------------------------------
  // HAMESH_CONTINUATION_PATTERN: `(?<=>)(=.+?)(?=<br>|</p>)`

  /** The lazy `.+?` of the continuation from `t`: where `<br>` or `</p>` first follows. */
  function ContinuationEnd(s: string, t: nat): (r: Option<nat>)
    requires t <= |s|
    ensures r.Some? ==> t <= r.value <= |s| && (OccursAt(s, "<br>", r.value) || OccursAt(s, "</p>", r.value))
    ensures r.Some? ==> OnOneLine(s, t, r.value)
    decreases |s| - t
  {
    if OccursAt(s, "<br>", t) || OccursAt(s, "</p>", t) then Some(t)
    else if t == |s| || s[t] == '\n' then None
    else ContinuationEnd(s, t + 1)
  }

  /** The continuation matched at `i`: its end. */
  function ContinuationAt(s: string, i: nat): (r: Option<nat>)
    ensures r.Some? ==> 1 <= i && i + 2 <= r.value <= |s| && s[i - 1] == '>' && s[i] == '='
  {
    if 1 <= i && i + 2 <= |s| && s[i - 1] == '>' && s[i] == '=' && s[i + 1] != '\n'
    then ContinuationEnd(s, i + 2)
    else None
  }

  /** `search` of the continuation pattern from `i`: the leftmost match `(start, end)`. */
  function ContinuationFrom(s: string, i: nat): (r: Option<(nat, nat)>)
    requires i <= |s|
    ensures r.Some? ==> i <= r.value.0 && ContinuationAt(s, r.value.0) == Some(r.value.1)
    decreases |s| - i
  {
    if ContinuationAt(s, i).Some? then Some((i, ContinuationAt(s, i).value))
    else if i == |s| then None
    else ContinuationFrom(s, i + 1)
  }

  /** The search finds the leftmost continuation, and finds one whenever there is one. */
  lemma {:induction false} ContinuationFromLeftmost(s: string, i: nat, k: nat)
    requires i <= k && i <= |s|
    requires ContinuationAt(s, k).Some?
    ensures ContinuationFrom(s, i).Some? && ContinuationFrom(s, i).value.0 <= k
    decreases |s| - i
  {
    if ContinuationAt(s, i).None? && i < |s| {
      ContinuationFromLeftmost(s, i + 1, k);
    }
  }

  // ---------------------------------------------------------------------------
  // HAMESH_PATTERN: `(marker)(.+?)(?:</?br/?>(?=marker)|</p>)`

  /** `</?br/?>` at `t`: its length. */
  function BrTagAt(s: string, t: nat): (r: Option<nat>)
    ensures r.Some? ==> 4 <= r.value <= 6 && t + r.value <= |s|
  {
    var a := if t + 1 < |s| && s[t + 1] == '/' then t + 2 else t + 1;
    if t < |s| && s[t] == '<' && a + 2 <= |s| && s[a..a + 2] == "br" then
      var b := if a + 2 < |s| && s[a + 2] == '/' then a + 3 else a + 2;
      if b < |s| && s[b] == '>' then Some(b + 1 - t) else None
    else None
  }

  /** The note's terminator at `t`: where the match ends, if it ends here. */
  function TerminatorAt(s: string, t: nat): (r: Option<nat>)
    ensures r.Some? ==> t + 4 <= r.value <= |s|
  {
    match BrTagAt(s, t)
    case Some(n) =>
      if MarkerAt(s, t + n).Some? then Some(t + n)
      else if OccursAt(s, "</p>", t) then Some(t + 4) else None
    case None => if OccursAt(s, "</p>", t) then Some(t + 4) else None
  }

  /** The lazy content from `t`: where the content stops and where the match ends. */
  function ContentEnd(s: string, t: nat): (r: Option<(nat, nat)>)
    requires t <= |s|
    ensures r.Some? ==> t <= r.value.0 < r.value.1 <= |s| && TerminatorAt(s, r.value.0) == Some(r.value.1)
    ensures r.Some? ==> OnOneLine(s, t, r.value.0)
    decreases |s| - t
  {
    if TerminatorAt(s, t).Some? then Some((t, TerminatorAt(s, t).value))
    else if t == |s| || s[t] == '\n' then None
    else ContentEnd(s, t + 1)
  }

  /** One footnote of a footnote block: its marker and its content. */
  datatype Note = Note(number: string, content: string)

  /** The footnote pattern matched at `i`: the note and the end of the match. */
  function NoteAt(s: string, i: nat): (r: Option<(Note, nat)>)
    ensures r.Some? ==> i < r.value.1 <= |s|
    ensures r.Some? ==> exists m :: IsMarker(s, i, m) && r.value.0.number == s[i..m]
  {
    match MarkerAt(s, i)
    case None => None
    case Some(m) =>
      if m < |s| && s[m] != '\n' then
        match ContentEnd(s, m + 1)
        case Some((c, e)) => Some((Note(s[i..m], s[m..c]), e))
        case None => None
      else None
  }

  /** `finditer` of the footnote pattern from `i`. */
  function NotesFrom(s: string, i: nat): seq<Note>
    requires i <= |s|
    decreases |s| - i
  {
    if i == |s| then []
    else match NoteAt(s, i)
      case Some((n, e)) => [n] + NotesFrom(s, e)
      case None => NotesFrom(s, i + 1)
  }

  /** Every footnote found opens with a marker. */
  lemma {:induction false} NotesFromAreMarkers(s: string, i: nat, k: nat)
    requires i <= |s| && k < |NotesFrom(s, i)|
    ensures IsMarker(NotesFrom(s, i)[k].number, 0, |NotesFrom(s, i)[k].number|)
    decreases |s| - i
  {
    if i < |s| {
      match NoteAt(s, i)
      case Some((n, e)) =>
        assert NotesFrom(s, i) == [n] + NotesFrom(s, e);
        if k == 0 {
          var m :| IsMarker(s, i, m) && n.number == s[i..m];
          MarkerText(s, i);
          assert IsMarker(n.number, 0, m - i);
        } else {
          NotesFromAreMarkers(s, e, k - 1);
          assert NotesFrom(s, i)[k] == NotesFrom(s, e)[k - 1];
        }
      case None =>
        assert NotesFrom(s, i) == NotesFrom(s, i + 1);
        NotesFromAreMarkers(s, i + 1, k);
    }
  }

  /** A marker cut out of its text is a marker on its own. */
  lemma {:induction false} MarkerText(s: string, i: nat)
    ensures forall m :: IsMarker(s, i, m) ==> IsMarker(s[i..m], 0, m - i)
  {
  }

  function Notes(s: string): seq<Note> {
    NotesFrom(s, 0)
  }
}
