/**
 * The page-text rewrites of the EPUB exporter that depend on no page
 * structure (shamela/exporters/epub.py): the colour styles found by
 * `CSS_STYLE_COLOR_PATTERN` and their interning as classes, and the
 * expansion of the honorific ligatures in `SPECIAL_CHARACTERS`.
 */
module Styles {
  import opened Common

  // ---------------------------------------------------------------------------
  // style="(color:#[\w\d]{6})"

  /** `\w` (with `\d`), over ASCII. */
  predicate IsWordChar(c: char) {
    'a' <= c <= 'z' || 'A' <= c <= 'Z' || '0' <= c <= '9' || c == '_'
  }

  const StylePrefix: string := "style=\"color:#"

  /** The colour pattern matches `s[i..i + 21]`; its group is `s[i + 7..i + 20]`. */
  predicate StyleAt(s: string, i: nat) {
    && i + 21 <= |s|
    && OccursAt(s, StylePrefix, i)
    && (forall k :: i + 14 <= k < i + 20 ==> IsWordChar(s[k]))
    && s[i + 20] == '"'
  }

  /** `findall` from index `i`: the groups of the non-overlapping matches, left to right. */
  function StylesFrom(s: string, i: nat): (styles: seq<string>)
    requires i <= |s|
    ensures forall k :: 0 <= k < |styles| ==> |styles[k]| == 13 && styles[k][..7] == "color:#"
    decreases |s| - i
  {
    if i + 21 > |s| then []
    else if StyleAt(s, i) then
      assert s[i..i + 14] == StylePrefix;
      assert s[i + 7..i + 20][..7] == s[i..i + 14][7..];
      [s[i + 7..i + 20]] + StylesFrom(s, i + 21)
    else StylesFrom(s, i + 1)
  }

  function ColorStyles(s: string): seq<string> {
    StylesFrom(s, 0)
  }

  /** A colour style occurs as a `style` attribute wherever the pattern finds it. */
  lemma {:induction false} StylesFromOccur(s: string, i: nat, k: nat)
    requires i <= |s| && k < |StylesFrom(s, i)|
    ensures Contains(s, StyleAttribute(StylesFrom(s, i)[k]))
    decreases |s| - i
  {
    if StyleAt(s, i) {
      if k == 0 {
        assert s[i..i + 7] == StylePrefix[..7] == "style=\"";
        assert s[i..i + 21] == s[i..i + 7] + s[i + 7..i + 20] + [s[i + 20]];
        assert s[i..i + 21] == StyleAttribute(s[i + 7..i + 20]);
        assert OccursAt(s, StyleAttribute(s[i + 7..i + 20]), i);
      } else {
        StylesFromOccur(s, i + 21, k - 1);
      }
    } else {
      StylesFromOccur(s, i + 1, k);
    }
  }

  /**
   * Two colour-style matches never overlap: inside a match, the characters
   * that could start another one are followed by what the pattern cannot
   * have there.
   */
  lemma {:induction false} StyleNoOverlap(s: string, i: nat, j: nat)
    requires StyleAt(s, i) && i < j < i + 21
    ensures !StyleAt(s, j)
  {
    assert s[i..i + 14] == StylePrefix;
    if j < i + 14 {
      assert s[j] == StylePrefix[j - i] != 's';
    } else if j == i + 14 {
      assert s[j + 5] == s[i + 19] != '=';
    } else {
      assert s[i + 20] == '"' != StylePrefix[i + 20 - j];
      assert j + 14 <= |s| ==> s[j..j + 14][i + 20 - j] == s[i + 20];
    }
  }

  /** The scan from `i` misses no colour style starting at or after `i`. */
  lemma {:induction false} StylesFromComplete(s: string, i: nat, j: nat)
    requires i <= j && i <= |s| && StyleAt(s, j)
    ensures s[j + 7..j + 20] in StylesFrom(s, i)
    decreases |s| - i
  {
    if i == j {
      assert StylesFrom(s, i) == [s[j + 7..j + 20]] + StylesFrom(s, i + 21);
    } else if StyleAt(s, i) {
      if j < i + 21 {
        StyleNoOverlap(s, i, j);
      } else {
        StylesFromComplete(s, i + 21, j);
      }
    } else {
      StylesFromComplete(s, i + 1, j);
    }
  }

  /** Every style the scan from `i` finds is the group of a match at or after `i`. */
  lemma {:induction false} StylesFromSound(s: string, i: nat, k: nat)
    requires i <= |s| && k < |StylesFrom(s, i)|
    ensures exists j :: i <= j && StyleAt(s, j) && StylesFrom(s, i)[k] == s[j + 7..j + 20]
    decreases |s| - i
  {
    if StyleAt(s, i) {
      if k > 0 {
        StylesFromSound(s, i + 21, k - 1);
      }
    } else {
      StylesFromSound(s, i + 1, k);
    }
  }

  /** `findall` lists exactly the groups of the colour-style matches of the text. */
  lemma {:induction false} ColorStylesExact(s: string, style: string)
    ensures style in ColorStyles(s) <==> exists j :: StyleAt(s, j) && style == s[j + 7..j + 20]
  {
    if style in ColorStyles(s) {
      var k :| 0 <= k < |ColorStyles(s)| && ColorStyles(s)[k] == style;
      StylesFromSound(s, 0, k);
    }
    if exists j :: StyleAt(s, j) && style == s[j + 7..j + 20] {
      var j :| StyleAt(s, j) && style == s[j + 7..j + 20];
      StylesFromComplete(s, 0, j);
    }
  }

  // ---------------------------------------------------------------------------
  // Interning the styles as classes

  function StyleAttribute(style: string): string {
    "style=\"" + style + "\""
  }

  function ClassAttribute(c: string): string {
    "class=\"" + c + "\""
  }

  function ColorClass(n: nat): string {
    "color-" + NatToString(n)
  }

  /** The rule appended to the default style sheet for a new class. */
  function CssRule(c: string, style: string): string {
    "\n." + c + " { " + style + "; }\n\n"
  }

  /** The exporter's `_color_styles_map`, `_last_color_id` and style sheet text. */
  datatype Palette = Palette(classes: map<string, string>, last: nat, css: string)

  /** `c` is one of the classes handed out so far. */
  predicate HandedOut(c: string, last: nat) {
    exists k :: 1 <= k <= last && c == ColorClass(k)
  }

  /** Every class is `color-k` for some `k` up to the counter, and no two styles share one. */
  predicate ValidPalette(p: Palette) {
    && (forall s :: s in p.classes ==> HandedOut(p.classes[s], p.last))
    && (forall s, t :: s in p.classes && t in p.classes && s != t ==> p.classes[s] != p.classes[t])
  }

  /** The class a style gets: its own if it has one, else the next number. */
  function Intern(p: Palette, style: string): (r: Palette)
    ensures style in r.classes
  {
    if style in p.classes && p.classes[style] != "" then p
    else
      var c := ColorClass(p.last + 1);
      Palette(p.classes[style := c], p.last + 1, p.css + CssRule(c, style))
  }

  /** The palette after the loop over the styles, in the order Python's set yields them. */
  function Interned(p: Palette, order: seq<string>): Palette
    decreases |order|
  {
    if order == [] then p else Intern(Interned(p, order[..|order| - 1]), order[|order| - 1])
  }

  /** The text after the loop: each `style="S"` replaced by the class `S` has by then. */
  function Recolored(p: Palette, html: string, order: seq<string>): string
    decreases |order|
  {
    if order == [] then html
    else
      var style := order[|order| - 1];
      var c := Interned(p, order).classes[style];
      ReplaceAll(Recolored(p, html, order[..|order| - 1]), StyleAttribute(style), ClassAttribute(c))
  }

  /** `order` lists the set of colour styles of `html`, each once, as Python's set iteration does. */
  ghost predicate EnumeratesStyles(order: seq<string>, html: string) {
    && (forall s :: s in order <==> s in ColorStyles(html))
    && (forall i, j :: 0 <= i < j < |order| ==> order[i] != order[j])
  }

  /** `replace_color_styles_with_class`: the palette and the text afterwards. */
  function Recolor(p: Palette, html: string, order: seq<string>): (Palette, string) {
    if ColorStyles(html) == [] then (p, html) else (Interned(p, order), Recolored(p, html, order))
  }

  /**
   * A style that already has a class keeps it and adds no rule; a new style
   * gets `color-(last + 1)`, the counter moves on by exactly one, one rule is
   * appended, and the map stays injective.
   */
  lemma {:induction false} InternStep(p: Palette, style: string)
    requires ValidPalette(p)
    ensures ValidPalette(Intern(p, style))
    ensures style in p.classes ==> Intern(p, style) == p
    ensures style !in p.classes ==>
      && Intern(p, style).classes == p.classes[style := ColorClass(p.last + 1)]
      && Intern(p, style).last == p.last + 1
      && Intern(p, style).css == p.css + CssRule(ColorClass(p.last + 1), style)
  {
    if style in p.classes {
      var k :| 1 <= k <= p.last && p.classes[style] == ColorClass(k);
      assert p.classes[style] != "";
    } else {
      var q := Intern(p, style);
      var c := ColorClass(p.last + 1);
      forall s | s in q.classes
        ensures HandedOut(q.classes[s], q.last)
      {
        if s == style {
          assert q.classes[s] == ColorClass(p.last + 1);
        } else {
          var k :| 1 <= k <= p.last && p.classes[s] == ColorClass(k);
          assert q.classes[s] == ColorClass(k);
        }
      }
      forall s, t | s in q.classes && t in q.classes && s != t
        ensures q.classes[s] != q.classes[t]
      {
        if s == style || t == style {
          var o := if s == style then t else s;
          var k :| 1 <= k <= p.last && p.classes[o] == ColorClass(k);
          if ColorClass(k) == c {
            assert NatToString(k) == ColorClass(k)[6..] == c[6..] == NatToString(p.last + 1);
            NatToStringInjective(k, p.last + 1);
          }
        }
      }
    }
  }

  /** The map stays injective, each class one handed out by the counter. */
  lemma {:induction false} InternAllValid(p: Palette, order: seq<string>)
    requires ValidPalette(p)
    ensures ValidPalette(Interned(p, order))
    decreases |order|
  {
    if order != [] {
      InternAllValid(p, order[..|order| - 1]);
      InternStep(Interned(p, order[..|order| - 1]), order[|order| - 1]);
    }
  }

  /** No style is mapped to the empty class (which `if not color_class` would treat as missing). */
  predicate NonEmptyClasses(p: Palette) {
    forall s :: s in p.classes ==> p.classes[s] != ""
  }

  lemma {:induction false} ValidNonEmpty(p: Palette)
    requires ValidPalette(p)
    ensures NonEmptyClasses(p)
  {
    forall s | s in p.classes
      ensures p.classes[s] != ""
    {
      var k :| 1 <= k <= p.last && p.classes[s] == ColorClass(k);
    }
  }

  lemma {:induction false} InternKeys(p: Palette, style: string)
    requires NonEmptyClasses(p)
    ensures var q := Intern(p, style);
      && NonEmptyClasses(q)
      && q.classes.Keys == p.classes.Keys + {style}
      && (forall s :: s in p.classes ==> q.classes[s] == p.classes[s])
      && q.last == p.last + (if style in p.classes then 0 else 1)
  {
  }

  lemma {:induction false} InternedKeys(p: Palette, order: seq<string>)
    requires NonEmptyClasses(p)
    ensures var q := Interned(p, order);
      && NonEmptyClasses(q)
      && q.classes.Keys == p.classes.Keys + (set s | s in order)
      && (forall s :: s in p.classes ==> s in q.classes && q.classes[s] == p.classes[s])
    decreases |order|
  {
    if order != [] {
      var init := order[..|order| - 1];
      InternedKeys(p, init);
      InternKeys(Interned(p, init), order[|order| - 1]);
      assert order == init + [order[|order| - 1]];
      assert (set s | s in order) == (set s | s in init) + {order[|order| - 1]};
    }
  }

  lemma {:induction false} InternedCounter(p: Palette, order: seq<string>)
    requires NonEmptyClasses(p)
    ensures Interned(p, order).last == p.last + |Interned(p, order).classes.Keys - p.classes.Keys|
    decreases |order|
  {
    if order != [] {
      var init := order[..|order| - 1];
      var style := order[|order| - 1];
      InternedCounter(p, init);
      InternedKeys(p, init);
      var q := Interned(p, init);
      InternKeys(q, style);
      if style !in q.classes {
        assert Intern(q, style).classes.Keys - p.classes.Keys == (q.classes.Keys - p.classes.Keys) + {style};
      } else {
        assert Intern(q, style).classes.Keys == q.classes.Keys;
      }
    }
  }

  /**
   * After the loop every style listed has a class, the styles that already
   * had one keep it, and the counter grew by exactly the number of styles
   * that were new.
   */
  lemma {:induction false} InternAllKeys(p: Palette, order: seq<string>)
    requires ValidPalette(p)
    ensures var q := Interned(p, order);
      && q.classes.Keys == p.classes.Keys + (set s | s in order)
      && (forall s :: s in p.classes ==> s in q.classes && q.classes[s] == p.classes[s])
      && q.last == p.last + |q.classes.Keys - p.classes.Keys|
  {
    ValidNonEmpty(p);
    InternedKeys(p, order);
    InternedCounter(p, order);
  }

  /** `replace_color_styles_with_class` keeps the palette valid. */
  lemma {:induction false} RecolorValid(p: Palette, html: string, order: seq<string>)
    requires ValidPalette(p)
    ensures ValidPalette(Recolor(p, html, order).0)
  {
    if ColorStyles(html) != [] {
      InternAllValid(p, order);
    }
  }

  /**
   * `replace_color_styles_with_class` on a page: the page's styles are
   * exactly the new keys, the classes already handed out are kept, and the
   * counter grows by the number of new styles.
   */
  lemma {:induction false} RecolorPalette(p: Palette, html: string, order: seq<string>)
    requires ValidPalette(p) && EnumeratesStyles(order, html)
    ensures var q := Recolor(p, html, order).0;
      && q.classes.Keys == p.classes.Keys + (set s | s in ColorStyles(html))
      && (forall s :: s in p.classes ==> q.classes[s] == p.classes[s])
      && q.last == p.last + |q.classes.Keys - p.classes.Keys|
  {
    SameElements(order, ColorStyles(html));
    if ColorStyles(html) == [] {
      assert (set s | s in ColorStyles(html)) == {};
    } else {
      InternAllKeys(p, order);
    }
  }

  lemma {:induction false} SameElements<T>(a: seq<T>, b: seq<T>)
    requires forall x :: x in a <==> x in b
    ensures (set x | x in a) == (set x | x in b)
  {
  }

  /** A page without colour styles changes neither the palette nor the text. */
  lemma {:induction false} RecolorNothing(p: Palette, html: string, order: seq<string>)
    requires ColorStyles(html) == []
    ensures Recolor(p, html, order) == (p, html)
  {
  }

  // ---------------------------------------------------------------------------
  // SPECIAL_CHARACTERS

  /** The phrase an honorific ligature stands for. */
  function Ligature(c: char): (r: Option<string>)
    ensures r.Some? ==> '\U{FD40}' <= c && forall x :: x in r.value ==> x < '\U{FD40}'
  {
    if c == '\U{FD40}' then Some("رحمه الله")
    else if c == '\U{FD4F}' then Some("رحمهم الله")
    else if c == '\U{FDFF}' then Some("عز وجل")
    else if c == '\U{FD4A}' then Some("عليه الصلاة والسلام")
    else if c == '\U{FD44}' then Some("رضي الله عنهما")
    else if c == '\U{FD43}' then Some("رضي الله عنهم")
    else if c == '\U{FD45}' then Some("رضي الله عنهن")
    else if c == '\U{FD42}' then Some("رضي الله عنها")
    else if c == '\U{FD41}' then Some("رضي الله عنه")
    else if c == '\U{FDFE}' then Some("سبحانه وتعالى")
    else if c == '\U{FD4E}' then Some("تبارك وتعالى")
    else if c == '\U{FD47}' then Some("عليه السلام")
    else if c == '\U{FD4D}' then Some("عليها السلام")
    else if c == '\U{FD48}' then Some("عليهم السلام")
    else if c == '\U{FD49}' then Some("عليهما السلام")
    else if c == '\U{FD4C}' then Some("صلى الله عليه وآله وسلم")
    else None
  }

  /**
   * `SPECIAL_CHARACTERS_PATTERN.sub(...)`: every key is one character, so the
   * alternation matches single characters and each is replaced by its phrase
   * in one left-to-right pass.
   */
  function ExpandLigatures(s: string): string {
    if s == [] then []
    else
      (match Ligature(s[0]) case Some(phrase) => phrase case None => [s[0]])
      + ExpandLigatures(s[1..])
  }

  /** After the expansion no ligature is left. */
  lemma {:induction false} ExpandLigaturesLeavesNone(s: string)
    ensures forall k :: 0 <= k < |ExpandLigatures(s)| ==> Ligature(ExpandLigatures(s)[k]).None?
  {
    if s != [] {
      ExpandLigaturesLeavesNone(s[1..]);
      if Ligature(s[0]).Some? {
        var phrase := Ligature(s[0]).value;
        assert forall k :: 0 <= k < |phrase| ==> phrase[k] in phrase;
      }
    }
  }

  /** A text without ligatures is left as it is. */
  lemma {:induction false} ExpandLigaturesIdentity(s: string)
    requires forall k :: 0 <= k < |s| ==> Ligature(s[k]).None?
    ensures ExpandLigatures(s) == s
  {
    if s != [] {
      ExpandLigaturesIdentity(s[1..]);
    }
  }

  /** Expanding twice is expanding once. */
  lemma {:induction false} ExpandLigaturesIdempotent(s: string)
    ensures ExpandLigatures(ExpandLigatures(s)) == ExpandLigatures(s)
  {
    ExpandLigaturesLeavesNone(s);
    ExpandLigaturesIdentity(ExpandLigatures(s));
  }
}
