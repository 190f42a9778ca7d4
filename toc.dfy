/**
 * The table of contents of a book (shamela/spiders/book.py): the tree read from
 * the index list of the book's first page, and its cut to one volume's page range.
 *
 * The crawler keeps the tree as Python lists whose items are either a link
 * `{page, text}` or a nested list; `Item` is that value.
 */
module Toc {
  import opened Common

  datatype Item = Leaf(page: int, text: string) | Nested(items: seq<Item>)

  /**
   * One `li` of the index as the selectors present it: the page its link
   * points to, the link text, whether the `li` holds a `ul`, and the `li`
   * entries selected below that `ul`.
   */
  datatype RawEntry = RawEntry(page: int, text: string, hasList: bool, children: seq<RawEntry>)

  // ---------------------------------------------------------------------------
  // Reading the tree

  /**
   * `_parse_toc`: a plain entry becomes its link; an entry with a sub-list
   * becomes the pair `[link, children]`.
   */
  function ParseToc(entries: seq<RawEntry>): seq<Item>
    decreases entries
  {
    if entries == [] then []
    else
      var e := entries[0];
      var link := Leaf(e.page, e.text);
      var item := if e.hasList then Nested([link, Nested(ParseToc(e.children))]) else link;
      [item] + ParseToc(entries[1..])
  }

  /** The links of the tree in reading order (pre-order). */
  function Leaves(t: seq<Item>): seq<(int, string)>
    decreases t
  {
    if t == [] then []
    else
      (match t[0]
       case Leaf(p, x) => [(p, x)]
       case Nested(xs) => Leaves(xs))
      + Leaves(t[1..])
  }

  /** The links of the raw index in reading order. */
  function Links(entries: seq<RawEntry>): seq<(int, string)>
    decreases entries
  {
    if entries == [] then []
    else
      var e := entries[0];
      [(e.page, e.text)]
      + (if e.hasList then Links(e.children) else [])
      + Links(entries[1..])
  }

  /** The shape `_parse_toc` builds: links, and pairs `[link, [children…]]`. */
  predicate ParsedShape(t: seq<Item>)
    decreases t
  {
    forall i :: 0 <= i < |t| ==>
      match t[i]
      case Leaf(_, _) => true
      case Nested(xs) =>
        |xs| == 2 && xs[0].Leaf? && xs[1].Nested? && ParsedShape(xs[1].items)
  }

  lemma {:induction false} ParseTocShape(entries: seq<RawEntry>)
    ensures |ParseToc(entries)| == |entries|
    ensures ParsedShape(ParseToc(entries))
    decreases entries
  {
    if entries != [] {
      if entries[0].hasList {
        ParseTocShape(entries[0].children);
      }
      ParseTocShape(entries[1..]);
    }
  }

  /** The tree holds every link of the index, in the order of the markup. */
  lemma {:induction false} ParseTocKeepsLinks(entries: seq<RawEntry>)
    ensures Leaves(ParseToc(entries)) == Links(entries)
    decreases entries
  {
    if entries != [] {
      var e := entries[0];
      ParseTocKeepsLinks(entries[1..]);
      if e.hasList {
        ParseTocKeepsLinks(e.children);
        var pair := [Leaf(e.page, e.text), Nested(ParseToc(e.children))];
        assert Leaves(pair[1..]) == Leaves(ParseToc(e.children));
      }
    }
  }

  // ---------------------------------------------------------------------------
  // Cutting the tree to a page range

  predicate InRange(p: int, start: int, end: int) {
    start <= p <= end
  }

  /**
   * `_cut_toc`: nested lists are cut recursively and kept when something
   * remains; links in range are kept; the first link out of range, below or
   * above, ends the list (`break`).
   */
  function CutToc(t: seq<Item>, start: int, end: int): seq<Item>
    decreases t
  {
    if t == [] then []
    else
      match t[0]
      case Nested(xs) =>
        var sub := CutToc(xs, start, end);
        (if sub != [] then [Nested(sub)] else []) + CutToc(t[1..], start, end)
      case Leaf(p, _) =>
        if InRange(p, start, end) then [t[0]] + CutToc(t[1..], start, end) else []
  }

  /** What a cut leaves: links in range, and nested lists that are not empty. */
  predicate CutShape(t: seq<Item>, start: int, end: int)
    decreases t
  {
    forall i :: 0 <= i < |t| ==>
      match t[i]
      case Leaf(p, _) => InRange(p, start, end)
      case Nested(xs) => xs != [] && CutShape(xs, start, end)
  }

  lemma {:induction false} CutShapeCons(x: Item, t: seq<Item>, start: int, end: int)
    requires CutShape(t, start, end)
    requires match x case Leaf(p, _) => InRange(p, start, end) case Nested(xs) => xs != [] && CutShape(xs, start, end)
    ensures CutShape([x] + t, start, end)
  {
    var u := [x] + t;
    forall i | 0 <= i < |u|
      ensures match u[i]
        case Leaf(p, _) => InRange(p, start, end)
        case Nested(xs) => xs != [] && CutShape(xs, start, end)
    {
      if i > 0 { assert u[i] == t[i - 1]; }
    }
  }

  /** Every link of a cut lies in the range, and no nested list of it is empty. */
  lemma {:induction false} CutTocShape(t: seq<Item>, start: int, end: int)
    ensures CutShape(CutToc(t, start, end), start, end)
    decreases t
  {
    if t != [] {
      CutTocShape(t[1..], start, end);
      match t[0]
      case Nested(xs) =>
        CutTocShape(xs, start, end);
        var sub := CutToc(xs, start, end);
        if sub != [] {
          CutShapeCons(Nested(sub), CutToc(t[1..], start, end), start, end);
        }
      case Leaf(p, _) =>
        if InRange(p, start, end) {
          CutShapeCons(t[0], CutToc(t[1..], start, end), start, end);
        }
    }
  }

  /** On a tree of that shape, the cut changes nothing. */
  lemma {:induction false} CutTocFixpoint(t: seq<Item>, start: int, end: int)
    requires CutShape(t, start, end)
    ensures CutToc(t, start, end) == t
    decreases t
  {
    if t != [] {
      assert CutShape(t[1..], start, end) by {
        forall i | 0 <= i < |t[1..]|
          ensures match t[1..][i]
            case Leaf(p, _) => InRange(p, start, end)
            case Nested(xs) => xs != [] && CutShape(xs, start, end)
        {
          assert t[1..][i] == t[i + 1];
        }
      }
      CutTocFixpoint(t[1..], start, end);
      match t[0]
      case Nested(xs) =>
        CutTocFixpoint(xs, start, end);
        assert t == [t[0]] + t[1..];
      case Leaf(p, _) =>
        assert t == [t[0]] + t[1..];
    }
  }

  /** Cutting twice to the same range is cutting once. */
  lemma {:induction false} CutTocIdempotent(t: seq<Item>, start: int, end: int)
    ensures CutToc(CutToc(t, start, end), start, end) == CutToc(t, start, end)
  {
    CutTocShape(t, start, end);
    CutTocFixpoint(CutToc(t, start, end), start, end);
  }

  /**
   * A link out of range ends the cut of its list: nothing after it is
   * looked at.
   */
  lemma {:induction false} CutTocStopsAtOutOfRange(t: seq<Item>, i: nat, start: int, end: int)
    requires i < |t| && t[i].Leaf? && !InRange(t[i].page, start, end)
    ensures CutToc(t, start, end) == CutToc(t[..i], start, end)
  {
    if i > 0 {
      assert t[1..][..i - 1] == t[..i][1..];
      CutTocStopsAtOutOfRange(t[1..], i - 1, start, end);
      assert t[..i][0] == t[0];
    }
  }

  /** A `[link, children]` pair whose link is out of range disappears whole. */
  lemma {:induction false} CutTocDropsGroupWithHeaderOutOfRange(p: int, x: string, children: seq<Item>, rest: seq<Item>, start: int, end: int)
    requires !InRange(p, start, end)
    ensures CutToc([Nested([Leaf(p, x), Nested(children)])] + rest, start, end) == CutToc(rest, start, end)
  {
    var t := [Nested([Leaf(p, x), Nested(children)])] + rest;
    assert CutToc([Leaf(p, x), Nested(children)], start, end) == [];
    assert t[1..] == rest;
  }

  // ---------------------------------------------------------------------------
  // Order: the cut's links are a subsequence of the tree's links

  predicate IsSubsequence<T(==)>(a: seq<T>, b: seq<T>)
    decreases |b|
  {
    a == [] || (b != [] && ((a[0] == b[0] && IsSubsequence(a[1..], b[1..])) || IsSubsequence(a, b[1..])))
  }

  lemma {:induction false} SubsequenceOfLonger<T>(a: seq<T>, pre: seq<T>, b: seq<T>)
    requires IsSubsequence(a, b)
    ensures IsSubsequence(a, pre + b)
    decreases |pre|
  {
    if pre == [] {
      assert pre + b == b;
    } else if a != [] {
      SubsequenceOfLonger(a, pre[1..], b);
      assert (pre + b)[1..] == pre[1..] + b;
      assert pre + b != [];
    }
  }

  lemma {:induction false} SubsequenceConcat<T>(a1: seq<T>, b1: seq<T>, a2: seq<T>, b2: seq<T>)
    requires IsSubsequence(a1, b1) && IsSubsequence(a2, b2)
    ensures IsSubsequence(a1 + a2, b1 + b2)
    decreases |b1|
  {
    if a1 == [] {
      assert a1 + a2 == a2;
      SubsequenceOfLonger(a2, b1, b2);
    } else {
      assert (b1 + b2)[1..] == b1[1..] + b2;
      if a1[0] == b1[0] && IsSubsequence(a1[1..], b1[1..]) {
        SubsequenceConcat(a1[1..], b1[1..], a2, b2);
        assert (a1 + a2)[1..] == a1[1..] + a2;
      } else {
        SubsequenceConcat(a1, b1[1..], a2, b2);
      }
    }
  }

  lemma {:induction false} SubsequenceEmpty<T>(b: seq<T>)
    ensures IsSubsequence([], b)
  {
  }

  lemma {:induction false} LeavesCons(x: Item, t: seq<Item>)
    ensures Leaves([x] + t) == Leaves([x]) + Leaves(t)
  {
    assert ([x] + t)[1..] == t;
    assert [x][1..] == [];
  }

  /** The cut keeps the relative order of the links it keeps. */
  lemma {:induction false} CutTocKeepsOrder(t: seq<Item>, start: int, end: int)
    ensures IsSubsequence(Leaves(CutToc(t, start, end)), Leaves(t))
    decreases t
  {
    if t != [] {
      CutTocKeepsOrder(t[1..], start, end);
      LeavesCons(t[0], t[1..]);
      assert t == [t[0]] + t[1..];
      match t[0]
      case Nested(xs) =>
        CutTocKeepsOrder(xs, start, end);
        CutTocKeepsOrderNested(xs, t[1..], start, end);
      case Leaf(p, x) =>
        if InRange(p, start, end) {
          LeavesCons(t[0], CutToc(t[1..], start, end));
          SubsequenceConcat([(p, x)], [(p, x)], Leaves(CutToc(t[1..], start, end)), Leaves(t[1..]));
        } else {
          SubsequenceEmpty(Leaves(t));
        }
    }
  }

  lemma {:induction false} CutTocKeepsOrderNested(xs: seq<Item>, rest: seq<Item>, start: int, end: int)
    requires IsSubsequence(Leaves(CutToc(xs, start, end)), Leaves(xs))
    requires IsSubsequence(Leaves(CutToc(rest, start, end)), Leaves(rest))
    ensures IsSubsequence(Leaves(CutToc([Nested(xs)] + rest, start, end)), Leaves([Nested(xs)]) + Leaves(rest))
  {
    var t := [Nested(xs)] + rest;
    assert t[0] == Nested(xs) && t[1..] == rest;
    var sub := CutToc(xs, start, end);
    var cutRest := CutToc(rest, start, end);
    assert Leaves([Nested(xs)]) == Leaves(xs) by {
      assert [Nested(xs)][1..] == [];
    }
    if sub != [] {
      assert CutToc(t, start, end) == [Nested(sub)] + cutRest;
      LeavesCons(Nested(sub), cutRest);
      assert Leaves([Nested(sub)]) == Leaves(sub) by {
        assert [Nested(sub)][1..] == [];
      }
    } else {
      assert CutToc(t, start, end) == cutRest;
      assert Leaves(sub) == [];
      assert Leaves(sub) + Leaves(cutRest) == Leaves(cutRest);
    }
    assert Leaves(CutToc(t, start, end)) == Leaves(sub) + Leaves(cutRest);
    SubsequenceConcat(Leaves(sub), Leaves(xs), Leaves(cutRest), Leaves(rest));
  }
}
