/**
 * Footnotes of a page (shamela/exporters/epub.py, lines 81-141): the
 * footnote blocks of a page become numbered EPUB asides, and a footnote
 * marker in the text becomes a link to its aside.
 */
module Footnotes {
  import opened Common
  import opened Scan

  /**
   * An `<aside id="fn{id}" epub:type="footnote">` as captured: the marker of
   * its back link to `#fnref{id}` (a footnote has one, a continuation does
   * not) and the text of its span, both before `strip()`, which
   * `RenderAside` applies.
   */
  datatype Aside = Aside(id: nat, backLink: Option<string>, text: string)

  // ---------------------------------------------------------------------------
  // The continuation of the previous page's footnote

  /** The `<br>`-separated pieces that follow, up to the first one opening with a marker. */
  function TakeSegments(parts: seq<string>): string {
    if parts == [] || MarkerAt(parts[0], 0).Some? then []
    else parts[0] + "<br>" + TakeSegments(parts[1..])
  }

  /** `hamesh_text` of a footnote block that holds a continuation (`=...`). */
  function ContinuationOf(block: string): Option<string> {
    match ContinuationFrom(block, 0)
    case None => None
    case Some((i, e)) => Some(block[i..e] + "<br>" + TakeSegments(Split(block, "<br>")[1..]))
  }

  /** The block with its continuation cut out, as searched for footnotes. */
  function Remainder(block: string): string {
    match ContinuationOf(block)
    case None => block
    case Some(h) => ReplaceAll(block, h, "")
  }

  /** The footnotes of all blocks, in order: the counter runs across blocks. */
  function AllNotes(blocks: seq<string>): seq<Note> {
    if blocks == [] then []
    else AllNotes(blocks[..|blocks| - 1]) + Notes(Remainder(blocks[|blocks| - 1]))
  }

  /** The aside of the last block with a continuation, numbered by the footnotes before it. */
  function LastContinuation(blocks: seq<string>): Option<Aside> {
    if blocks == [] then None
    else
      var init := blocks[..|blocks| - 1];
      match ContinuationOf(blocks[|blocks| - 1])
      case Some(h) => Some(Aside(|AllNotes(init)|, None, h))
      case None => LastContinuation(init)
  }

  /** The aside of footnote number `k`. */
  function NoteAside(k: nat, n: Note): Aside {
    Aside(k, Some(n.number), n.content)
  }

  /** Footnote `k` under key `k`, from 1 on. */
  function NoteItems(notes: seq<Note>): map<int, Aside> {
    if notes == [] then map[]
    else NoteItems(notes[..|notes| - 1])[|notes| := NoteAside(|notes|, notes[|notes| - 1])]
  }

  /** The footnotes, and the continuation under key 0. */
  function ItemsOf(notes: seq<Note>, continuation: Option<Aside>): map<int, Aside> {
    match continuation
    case Some(a) => NoteItems(notes)[0 := a]
    case None => NoteItems(notes)
  }

  lemma {:induction false} NoteItemsNumbering(notes: seq<Note>)
    ensures forall k :: k in NoteItems(notes) <==> 1 <= k <= |notes|
    ensures forall k :: 1 <= k <= |notes| ==> NoteItems(notes)[k] == NoteAside(k, notes[k - 1])
  {
    if notes != [] {
      var init := notes[..|notes| - 1];
      NoteItemsNumbering(init);
      assert forall i :: 0 <= i < |init| ==> init[i] == notes[i];
    }
  }

  /** The items `_get_hamesh_items` builds from a page's footnote blocks. */
  function HameshItems(blocks: seq<string>): map<int, Aside> {
    ItemsOf(AllNotes(blocks), LastContinuation(blocks))
  }

  /**
   * The keys of the items: 1, 2, ... up to the number of footnotes, with no
   * gap across the blocks, and 0 exactly when some block has a continuation.
   */
  lemma {:induction false} HameshItemsKeys(blocks: seq<string>)
    ensures forall k :: k in HameshItems(blocks) && k != 0 <==> 1 <= k <= |AllNotes(blocks)|
    ensures 0 in HameshItems(blocks) <==> exists b :: 0 <= b < |blocks| && ContinuationOf(blocks[b]).Some?
  {
    NoteItemsNumbering(AllNotes(blocks));
    LastContinuationFound(blocks);
  }

  /**
   * Item `k` is the aside with id `k` of the `k`-th footnote: its back link
   * is that footnote's marker, which `strip` leaves as it is.
   */
  lemma {:induction false} HameshItemsNumbered(blocks: seq<string>)
    ensures forall k :: 1 <= k <= |AllNotes(blocks)| ==>
      && k in HameshItems(blocks)
      && HameshItems(blocks)[k] == Aside(k, Some(AllNotes(blocks)[k - 1].number), AllNotes(blocks)[k - 1].content)
    ensures forall i :: 0 <= i < |AllNotes(blocks)| ==>
      && IsMarker(AllNotes(blocks)[i].number, 0, |AllNotes(blocks)[i].number|)
      && Strip(AllNotes(blocks)[i].number) == AllNotes(blocks)[i].number
  {
    ItemsOfNumbered(AllNotes(blocks), LastContinuation(blocks));
    AllNotesStripped(blocks);
  }

  lemma {:induction false} ItemsOfNumbered(notes: seq<Note>, continuation: Option<Aside>)
    ensures forall k :: 1 <= k <= |notes| ==>
      k in ItemsOf(notes, continuation) && ItemsOf(notes, continuation)[k] == NoteAside(k, notes[k - 1])
  {
    NoteItemsNumbering(notes);
  }

  lemma {:induction false} AllNotesStripped(blocks: seq<string>)
    ensures forall i :: 0 <= i < |AllNotes(blocks)| ==>
      && IsMarker(AllNotes(blocks)[i].number, 0, |AllNotes(blocks)[i].number|)
      && Strip(AllNotes(blocks)[i].number) == AllNotes(blocks)[i].number
  {
    var notes := AllNotes(blocks);
    forall i | 0 <= i < |notes|
      ensures IsMarker(notes[i].number, 0, |notes[i].number|) && Strip(notes[i].number) == notes[i].number
    {
      AllNotesAreMarkers(blocks, i);
      MarkerHasNoSpace(notes[i].number);
    }
  }

  /** A marker is left as it is by `strip`. */
  lemma {:induction false} MarkerHasNoSpace(m: string)
    requires IsMarker(m, 0, |m|)
    ensures Strip(m) == m
  {
    assert StripLeft(m) == m;
    assert StripRight(m) == m;
  }

  lemma {:induction false} AllNotesAreMarkers(blocks: seq<string>, k: nat)
    requires k < |AllNotes(blocks)|
    ensures IsMarker(AllNotes(blocks)[k].number, 0, |AllNotes(blocks)[k].number|)
    decreases |blocks|
  {
    var init := blocks[..|blocks| - 1];
    if k < |AllNotes(init)| {
      AllNotesAreMarkers(init, k);
    } else {
      NotesFromAreMarkers(Remainder(blocks[|blocks| - 1]), 0, k - |AllNotes(init)|);
    }
  }

  lemma {:induction false} LastContinuationFound(blocks: seq<string>)
    ensures LastContinuation(blocks).Some? <==> exists b :: 0 <= b < |blocks| && ContinuationOf(blocks[b]).Some?
    decreases |blocks|
  {
    if blocks != [] {
      var n := |blocks| - 1;
      var init := blocks[..n];
      LastContinuationFound(init);
      if ContinuationOf(blocks[n]).Some? {
        assert LastContinuation(blocks).Some?;
      } else {
        assert LastContinuation(blocks) == LastContinuation(init);
        assert forall b :: 0 <= b < n ==> init[b] == blocks[b];
      }
    }
  }

  lemma {:induction false} ItemsOfAppend(notes: seq<Note>, n: Note, continuation: Option<Aside>)
    ensures ItemsOf(notes + [n], continuation)
      == ItemsOf(notes, continuation)[|notes| + 1 := NoteAside(|notes| + 1, n)]
  {
    assert (notes + [n])[..|notes|] == notes;
  }

  lemma {:induction false} ItemsOfContinuation(notes: seq<Note>, continuation: Option<Aside>, a: Aside)
    ensures ItemsOf(notes, continuation)[0 := a] == ItemsOf(notes, Some(a))
  {
  }

  /** One more block: its footnotes follow, and its continuation, if any, replaces key 0. */
  lemma {:induction false} HameshItemsStep(blocks: seq<string>, b: nat)
    requires b < |blocks|
    ensures AllNotes(blocks[..b + 1]) == AllNotes(blocks[..b]) + Notes(Remainder(blocks[b]))
    ensures LastContinuation(blocks[..b + 1]) == match ContinuationOf(blocks[b])
      case Some(h) => Some(Aside(|AllNotes(blocks[..b])|, None, h))
      case None => LastContinuation(blocks[..b])
  {
    assert blocks[..b + 1][..b] == blocks[..b];
  }

  /** The continuation text of a block, built piece by piece as `_get_hamesh_items` does. */
  method ContinuationText(block: string) returns (h: Option<string>)
    ensures h == ContinuationOf(block)
  {
    match ContinuationFrom(block, 0) {
      case None =>
        h := None;
      case Some((i, e)) =>
        var parts := Split(block, "<br>")[1..];
        var text := block[i..e] + "<br>";
        var j := 0;
        while j < |parts| && MarkerAt(parts[j], 0).None?
          invariant 0 <= j <= |parts|
          invariant text + TakeSegments(parts[j..]) == block[i..e] + "<br>" + TakeSegments(parts)
        {
          assert parts[j..][1..] == parts[j + 1..];
          text := text + parts[j] + "<br>";
          j := j + 1;
        }
        assert TakeSegments(parts[j..]) == [] by {
          if j < |parts| {
            assert parts[j..][0] == parts[j];
          }
        }
        assert text + [] == text;
        h := Some(text);
    }
  }

  /** The inner loop of `_get_hamesh_items`: the footnotes of one block, numbered on from `counter`. */
  method AddNotes(items: map<int, Aside>, counter: nat, notes: seq<Note>,
                  ghost seen: seq<Note>, ghost continuation: Option<Aside>)
    returns (items': map<int, Aside>, counter': nat)
    requires items == ItemsOf(seen, continuation) && counter == |seen|
    ensures items' == ItemsOf(seen + notes, continuation) && counter' == |seen + notes|
  {
    items', counter' := items, counter;
    var k := 0;
    assert seen + notes[..0] == seen;
    while k < |notes|
      invariant 0 <= k <= |notes|
      invariant counter' == |seen| + k
      invariant items' == ItemsOf(seen + notes[..k], continuation)
    {
      ItemsOfAppend(seen + notes[..k], notes[k], continuation);
      assert seen + notes[..k + 1] == (seen + notes[..k]) + [notes[k]];
      counter' := counter' + 1;
      items' := items'[counter' := NoteAside(counter', notes[k])];
      k := k + 1;
    }
    assert notes[..k] == notes;
  }

  /** `_get_hamesh_items`: the items of a page's footnote blocks. */
  method GetHameshItems(blocks: seq<string>) returns (items: map<int, Aside>)
    ensures items == HameshItems(blocks)
  {
    items := map[];
    var counter := 0;
    var b := 0;
    while b < |blocks|
      invariant 0 <= b <= |blocks|
      invariant counter == |AllNotes(blocks[..b])|
      invariant items == ItemsOf(AllNotes(blocks[..b]), LastContinuation(blocks[..b]))
    {
      ghost var before := AllNotes(blocks[..b]);
      HameshItemsStep(blocks, b);
      var block := blocks[b];
      var rest := block;
      var h := ContinuationText(block);
      if h.Some? {
        ItemsOfContinuation(before, LastContinuation(blocks[..b]), Aside(counter, None, h.value));
        items := items[0 := Aside(counter, None, h.value)];
        rest := ReplaceAll(block, h.value, "");
      }
      items, counter := AddNotes(items, counter, Notes(rest), before, LastContinuation(blocks[..b + 1]));
      b := b + 1;
    }
    assert blocks[..b] == blocks;
  }

  // ---------------------------------------------------------------------------
  // Serialized elements

  /** The namespace declaration serializing an element with an `epub:type` attribute. */
  const OpsNamespace: string := " xmlns:ns0=\"http://www.idpf.org/2007/ops\""

  /** `_create_footnote_link(k, number)`, serialized. */
  function FootnoteLink(k: nat, number: string): string {
    "<a" + OpsNamespace + " href=\"#fn" + NatToString(k) + "\" ns0:type=\"noteref\" role=\"doc-noteref\" id=\"fnref"
    + NatToString(k) + "\" class=\"fn nu\">" + number + "</a>"
  }

  function RenderAside(a: Aside): string {
    "<aside" + OpsNamespace + " id=\"fn" + NatToString(a.id) + "\" ns0:type=\"footnote\">"
    + (match a.backLink
       case Some(m) =>
         "<a href=\"#fnref" + NatToString(a.id) + "\" class=\"nu\">" + Strip(m) + "</a><span> "
         + Strip(Strip(a.text)) + "</span>"
       case None => "<span>" + Strip(a.text) + "</span>")
    + "</aside>"
  }

  function RenderAsides(asides: seq<Aside>): string {
    if asides == [] then [] else RenderAside(asides[0]) + RenderAsides(asides[1..])
  }

  /** The new `<div class="hamesh">` holding the asides. */
  function RenderBlock(asides: seq<Aside>): string {
    if asides == [] then "<div class=\"hamesh\"/>"
    else "<div class=\"hamesh\">" + RenderAsides(asides) + "</div>"
  }
}
