/**
 * `SortedJsonItemExporter` (shamela/exporters.py): collects the crawled
 * items and, at the end, orders them by their `id` before they are written
 * out.
 */
module SortedExporter {
  import opened Common

  /**
   * An item's `id` as Python compares it: the book and author spiders give
   * integers (books.py:23, authors.py:18), the category spider the last
   * segment of a link, a string (categories.py:16).
   */
  datatype Id = IntId(n: int) | StrId(s: string)

  /** A crawled item as its serialized fields; `id` is absent on some items. */
  datatype ExportedItem = ExportedItem(id: Option<Id>, fields: seq<(string, string)>)

  /** `x.get('id', 0)`. */
  function Key(x: ExportedItem): Id {
    x.id.GetOr(IntId(0))
  }

  /** Python's `<=` on strings: code point by code point, a proper prefix first. */
  predicate StrLe(a: string, b: string) {
    a == [] || (b != [] && (a[0] < b[0] || (a[0] == b[0] && StrLe(a[1..], b[1..]))))
  }

  lemma {:induction false} StrLeReflexive(a: string)
    ensures StrLe(a, a)
  {
    if a != [] {
      StrLeReflexive(a[1..]);
    }
  }

  lemma {:induction false} StrLeTotal(a: string, b: string)
    ensures StrLe(a, b) || StrLe(b, a)
  {
    if a != [] && b != [] && a[0] == b[0] {
      StrLeTotal(a[1..], b[1..]);
    }
  }

  lemma {:induction false} StrLeTransitive(a: string, b: string, c: string)
    requires StrLe(a, b) && StrLe(b, c)
    ensures StrLe(a, c)
  {
    if a != [] && a[0] == b[0] && b[0] == c[0] {
      StrLeTransitive(a[1..], b[1..], c[1..]);
    }
  }

  /**
   * The order of the sort keys. Two integers or two strings compare as in
   * Python; an integer against a string raises `TypeError` in Python, and
   * `FinishExporting` never sorts such a list. Putting integers first there
   * only makes the order total, so the sort lemmas need no side condition.
   */
  predicate IdLe(a: Id, b: Id) {
    match (a, b)
    case (IntId(x), IntId(y)) => x <= y
    case (StrId(x), StrId(y)) => StrLe(x, y)
    case (IntId(_), StrId(_)) => true
    case (StrId(_), IntId(_)) => false
  }

  lemma IdLeReflexive(a: Id)
    ensures IdLe(a, a)
  {
    if a.StrId? {
      StrLeReflexive(a.s);
    }
  }

  lemma IdLeTotal(a: Id, b: Id)
    ensures IdLe(a, b) || IdLe(b, a)
  {
    if a.StrId? && b.StrId? {
      StrLeTotal(a.s, b.s);
    }
  }

  lemma IdLeTransitive(a: Id, b: Id, c: Id)
    requires IdLe(a, b) && IdLe(b, c)
    ensures IdLe(a, c)
  {
    if a.StrId? && b.StrId? && c.StrId? {
      StrLeTransitive(a.s, b.s, c.s);
    }
  }

  predicate SortedByKey(s: seq<ExportedItem>) {
    forall i, j :: 0 <= i < j < |s| ==> IdLe(Key(s[i]), Key(s[j]))
  }

  /** Some item's key is an integer (a missing `id` counts as `0`). */
  function HasIntKey(s: seq<ExportedItem>): (r: bool)
    ensures r <==> exists i :: 0 <= i < |s| && Key(s[i]).IntId?
  {
    if s == [] then false
    else
      assert forall i :: 1 <= i < |s| ==> s[1..][i - 1] == s[i];
      Key(s[0]).IntId? || HasIntKey(s[1..])
  }

  /** Some item's key is a string. */
  function HasStrKey(s: seq<ExportedItem>): (r: bool)
    ensures r <==> exists i :: 0 <= i < |s| && Key(s[i]).StrId?
  {
    if s == [] then false
    else
      assert forall i :: 1 <= i < |s| ==> s[1..][i - 1] == s[i];
      Key(s[0]).StrId? || HasStrKey(s[1..])
  }

  /** Puts `x` after every item whose key is not greater than its own. */
  function Insert(x: ExportedItem, s: seq<ExportedItem>): seq<ExportedItem>
    decreases |s|
  {
    if s == [] || IdLe(Key(s[|s| - 1]), Key(x)) then s + [x]
    else Insert(x, s[..|s| - 1]) + [s[|s| - 1]]
  }

  /** `list.sort(key=...)`: a stable sort by `Key`, as insertion sort does it. */
  function SortById(s: seq<ExportedItem>): seq<ExportedItem>
    decreases |s|
  {
    if s == [] then [] else Insert(s[|s| - 1], SortById(s[..|s| - 1]))
  }

  /** The items with key `k`, in order. */
  function WithKey(s: seq<ExportedItem>, k: Id): (r: seq<ExportedItem>)
    ensures forall i :: 0 <= i < |r| ==> Key(r[i]) == k
    decreases |s|
  {
    if s == [] then []
    else WithKey(s[..|s| - 1], k) + (if Key(s[|s| - 1]) == k then [s[|s| - 1]] else [])
  }

  lemma {:induction false} WithKeyAppend(a: seq<ExportedItem>, b: seq<ExportedItem>, k: Id)
    ensures WithKey(a + b, k) == WithKey(a, k) + WithKey(b, k)
    decreases |b|
  {
    if b == [] {
      assert a + b == a;
    } else {
      var init := b[..|b| - 1];
      assert (a + b)[..|a + b| - 1] == a + init;
      WithKeyAppend(a, init, k);
    }
  }

  /** Inserting adds exactly `x`. */
  lemma {:induction false} InsertPermutes(x: ExportedItem, s: seq<ExportedItem>)
    ensures multiset(Insert(x, s)) == multiset(s) + multiset{x}
    decreases |s|
  {
    if s != [] && !IdLe(Key(s[|s| - 1]), Key(x)) {
      var init := s[..|s| - 1];
      assert s == init + [s[|s| - 1]];
      InsertPermutes(x, init);
    }
  }

  /** A bound on every key, and on the new one, bounds the keys after inserting. */
  lemma {:induction false} InsertBounded(x: ExportedItem, s: seq<ExportedItem>, b: Id)
    requires IdLe(Key(x), b) && forall i :: 0 <= i < |s| ==> IdLe(Key(s[i]), b)
    ensures forall i :: 0 <= i < |Insert(x, s)| ==> IdLe(Key(Insert(x, s)[i]), b)
    decreases |s|
  {
    if s != [] && !IdLe(Key(s[|s| - 1]), Key(x)) {
      InsertBounded(x, s[..|s| - 1], b);
    }
  }

  lemma {:induction false} InsertSorted(x: ExportedItem, s: seq<ExportedItem>)
    requires SortedByKey(s)
    ensures SortedByKey(Insert(x, s))
    decreases |s|
  {
    if s != [] && !IdLe(Key(s[|s| - 1]), Key(x)) {
      var init := s[..|s| - 1];
      InsertSorted(x, init);
      IdLeTotal(Key(s[|s| - 1]), Key(x));
      InsertBounded(x, init, Key(s[|s| - 1]));
    } else if s != [] {
      forall i | 0 <= i < |s| - 1
        ensures IdLe(Key(s[i]), Key(x))
      {
        IdLeTransitive(Key(s[i]), Key(s[|s| - 1]), Key(x));
      }
    }
  }

  /** Inserting keeps the order among items of one key, the new one last. */
  lemma {:induction false} InsertStable(x: ExportedItem, s: seq<ExportedItem>, k: Id)
    ensures WithKey(Insert(x, s), k) == WithKey(s, k) + (if Key(x) == k then [x] else [])
    decreases |s|
  {
    if s == [] || IdLe(Key(s[|s| - 1]), Key(x)) {
      WithKeyAppend(s, [x], k);
      assert WithKey([x], k) == WithKey([], k) + (if Key(x) == k then [x] else []);
    } else {
      var init := s[..|s| - 1];
      var last := s[|s| - 1];
      var own := if Key(x) == k then [x] else [];
      var other := if Key(last) == k then [last] else [];
      calc {
        WithKey(Insert(x, s), k);
      == { assert Insert(x, s) == Insert(x, init) + [last]; WithKeyAppend(Insert(x, init), [last], k); }
        WithKey(Insert(x, init), k) + WithKey([last], k);
      == { assert WithKey([last], k) == WithKey([], k) + other; }
        WithKey(Insert(x, init), k) + other;
      == { InsertStable(x, init, k); }
        WithKey(init, k) + own + other;
      == { IdLeReflexive(Key(x)); assert own == [] || other == []; }
        WithKey(init, k) + other + own;
      }
    }
  }

  /** The sorted list is ordered by `id`, a missing id counting as `0`, and holds the same items. */
  lemma {:induction false} SortByIdSorted(s: seq<ExportedItem>)
    ensures SortedByKey(SortById(s))
    ensures multiset(SortById(s)) == multiset(s)
    decreases |s|
  {
    if s != [] {
      var init := s[..|s| - 1];
      SortByIdSorted(init);
      InsertSorted(s[|s| - 1], SortById(init));
      InsertPermutes(s[|s| - 1], SortById(init));
      assert s == init + [s[|s| - 1]];
    }
  }

  /** The sort is stable: the items of each `id` keep their export order. */
  lemma {:induction false} SortByIdStable(s: seq<ExportedItem>, k: Id)
    ensures WithKey(SortById(s), k) == WithKey(s, k)
    decreases |s|
  {
    if s != [] {
      var init := s[..|s| - 1];
      SortByIdStable(init, k);
      InsertStable(s[|s| - 1], SortById(init), k);
    }
  }

  /** As strings, `"10"` is below `"9"`: the first characters decide. */
  lemma TenBeforeNine()
    ensures StrLe("10", "9") && !StrLe("9", "10")
  {
    assert "10"[0] == '1' && "9"[0] == '9';
  }

  /** String ids sort as strings: the category `"10"` comes before the category `"9"`. */
  lemma StringIdsSortAsStrings(f: seq<(string, string)>, g: seq<(string, string)>)
    ensures SortById([ExportedItem(Some(StrId("9")), f), ExportedItem(Some(StrId("10")), g)])
            == [ExportedItem(Some(StrId("10")), g), ExportedItem(Some(StrId("9")), f)]
  {
    var nine := ExportedItem(Some(StrId("9")), f);
    var ten := ExportedItem(Some(StrId("10")), g);
    assert SortById([nine]) == [nine] by {
      assert [nine][..0] == [];
    }
    assert Insert(ten, [nine]) == [ten, nine] by {
      TenBeforeNine();
      assert !IdLe(Key(nine), Key(ten));
    }
    assert [nine, ten][..1] == [nine];
  }

  class SortedJsonItemExporter {
    var items: seq<ExportedItem>   // `_items`

    constructor()
      ensures items == []
    {
      items := [];
    }

    /** `export_item`: one more item at the end. */
    method ExportItem(item: ExportedItem)
      modifies this
      ensures items == old(items) + [item]
    {
      items := items + [item];
    }

    /** `start_exporting` does nothing. */
    method StartExporting()
      ensures items == old(items)
    {
    }

    /**
     * `finish_exporting`: the items sorted by `id`; the JSON written
     * afterwards is not modelled. Integer and string keys together make
     * `list.sort` raise `TypeError` (any sort of such a list compares the
     * two kinds); the items are then still the same, in an order Python
     * does not promise.
     */
    method FinishExporting() returns (typeError: bool)
      modifies this
      ensures typeError <==> (exists i :: 0 <= i < |old(items)| && Key(old(items)[i]).IntId?)
                             && (exists j :: 0 <= j < |old(items)| && Key(old(items)[j]).StrId?)
      ensures typeError ==> multiset(items) == multiset(old(items))
      ensures !typeError ==>
        && items == SortById(old(items))
        && SortedByKey(items) && multiset(items) == multiset(old(items))
        && forall k :: WithKey(items, k) == WithKey(old(items), k)
    {
      typeError := HasIntKey(items) && HasStrKey(items);
      if typeError {
        return;
      }
      SortByIdSorted(items);
      forall k ensures WithKey(SortById(items), k) == WithKey(items, k) {
        SortByIdStable(items, k);
      }
      items := SortById(items);
    }
  }
}
