/**
 * Python built-ins the crawler relies on, stated over Dafny values:
 * `Option`, `str.strip`, `str.replace`, `str.split`, `str.zfill`, `str(int)`,
 * and insertion-ordered dictionaries (association lists with distinct keys).
 */
module Common {

  datatype Option<+T> = None | Some(value: T) {
    function GetOr(default: T): T {
      match this
      case Some(v) => v
      case None => default
    }
  }

  // ---------------------------------------------------------------------------
  // Substrings

  predicate StartsWith(s: string, p: string) {
    |p| <= |s| && s[..|p|] == p
  }

  /** `p` occurs in `s` at index `i`. */
  predicate OccursAt(s: string, p: string, i: int) {
    0 <= i && i + |p| <= |s| && s[i..i + |p|] == p
  }

  /** `p in s`, Python's substring test. */
  predicate Contains(s: string, p: string) {
    exists i | 0 <= i <= |s| :: OccursAt(s, p, i)
  }

  /** The smallest index `k >= from` at which `p` occurs in `s` (`str.find`). */
  function IndexOfFrom(s: string, p: string, from: nat): (r: Option<nat>)
    requires from <= |s|
    decreases |s| - from
    ensures r.Some? ==> from <= r.value && OccursAt(s, p, r.value)
    ensures r.Some? ==> forall k :: from <= k < r.value ==> !OccursAt(s, p, k)
    ensures r.None? ==> forall k :: from <= k ==> !OccursAt(s, p, k)
  {
    if |s| - from < |p| then None
    else if s[from..from + |p|] == p then Some(from)
    else if from == |s| then None
    else IndexOfFrom(s, p, from + 1)
  }

  lemma {:induction false} IndexOfNoneNotContains(s: string, p: string)
    requires IndexOfFrom(s, p, 0).None?
    ensures !Contains(s, p)
  {
  }

  // ---------------------------------------------------------------------------
  // str.replace

  /**
   * `s.replace(pat, rep)`: every non-overlapping occurrence of `pat`, scanning
   * left to right, is replaced by `rep`; an empty `pat` inserts `rep` at every
   * position, as in Python.
   */
  function ReplaceAll(s: string, pat: string, rep: string): string
    decreases |s|
  {
    if pat == [] then
      (if s == [] then rep else rep + [s[0]] + ReplaceAll(s[1..], pat, rep))
    else if |s| < |pat| then s
    else if s[..|pat|] == pat then rep + ReplaceAll(s[|pat|..], pat, rep)
    else [s[0]] + ReplaceAll(s[1..], pat, rep)
  }

  /** Replacing a string that does not occur changes nothing. */
  lemma {:induction false} ReplaceAllAbsent(s: string, pat: string, rep: string)
    requires pat != [] && !Contains(s, pat)
    ensures ReplaceAll(s, pat, rep) == s
  {
    if |s| >= |pat| {
      assert s[0..0 + |pat|] == s[..|pat|];
      assert !OccursAt(s, pat, 0);
      assert !Contains(s[1..], pat) by {
        forall i | OccursAt(s[1..], pat, i)
          ensures false
        {
          assert s[1..][i..i + |pat|] == s[i + 1..i + 1 + |pat|];
          assert OccursAt(s, pat, i + 1);
        }
      }
      ReplaceAllAbsent(s[1..], pat, rep);
    }
  }

  /** A replacement of `pat` by itself is the identity. */
  lemma {:induction false} ReplaceAllSelf(s: string, pat: string)
    requires pat != []
    ensures ReplaceAll(s, pat, pat) == s
  {
    if |s| >= |pat| {
      if s[..|pat|] == pat {
        ReplaceAllSelf(s[|pat|..], pat);
        assert s == s[..|pat|] + s[|pat|..];
      } else {
        ReplaceAllSelf(s[1..], pat);
        assert s == [s[0]] + s[1..];
      }
    }
  }

  /** Replacing an occurring `pat` leaves `rep` in the text. */
  lemma {:induction false} ReplaceAllIntroduces(s: string, pat: string, rep: string)
    requires pat != [] && Contains(s, pat)
    ensures Contains(ReplaceAll(s, pat, rep), rep)
    decreases |s|
  {
    var i :| 0 <= i <= |s| && OccursAt(s, pat, i);
    if s[..|pat|] == pat {
      assert OccursAt(ReplaceAll(s, pat, rep), rep, 0);
    } else {
      assert i != 0;
      assert s[1..][i - 1..i - 1 + |pat|] == s[i..i + |pat|];
      assert OccursAt(s[1..], pat, i - 1);
      ReplaceAllIntroduces(s[1..], pat, rep);
      var t := ReplaceAll(s[1..], pat, rep);
      var j :| 0 <= j <= |t| && OccursAt(t, rep, j);
      assert ([s[0]] + t)[j + 1..j + 1 + |rep|] == t[j..j + |rep|];
      assert OccursAt([s[0]] + t, rep, j + 1);
    }
  }

  /** Replacing a whole string by `rep` gives `rep`. */
  lemma {:induction false} ReplaceAllWhole(p: string, rep: string)
    requires p != []
    ensures ReplaceAll(p, p, rep) == rep
  {
    assert p[..|p|] == p && p[|p|..] == [];
  }

  /** An occurrence of `p + q` is an occurrence of `p`. */
  lemma {:induction false} ContainsPrefix(s: string, p: string, q: string)
    requires Contains(s, p + q)
    ensures Contains(s, p)
  {
    var i :| 0 <= i <= |s| && OccursAt(s, p + q, i);
    assert s[i..i + |p|] == (p + q)[..|p|];
    assert OccursAt(s, p, i);
  }

  /** A string contains another of its own length only by being it. */
  lemma {:induction false} ContainsSameLength(s: string, p: string)
    requires Contains(s, p) && |p| == |s|
    ensures s == p
  {
    var i :| 0 <= i <= |s| && OccursAt(s, p, i);
    assert i == 0 && s[0..|s|] == s;
  }

  // ---------------------------------------------------------------------------
  // str.strip

  /** `str.isspace` for one character (Unicode white space as Python defines it). */
  predicate IsSpace(c: char) {
    c == ' ' || ('\t' <= c <= '\r') || ('\U{1C}' <= c <= '\U{1F}') || c == '\U{85}'
    || c == '\U{A0}' || c == '\U{1680}' || ('\U{2000}' <= c <= '\U{200A}')
    || c == '\U{2028}' || c == '\U{2029}' || c == '\U{202F}' || c == '\U{205F}' || c == '\U{3000}'
  }

  function StripLeft(s: string): (r: string)
    ensures |r| <= |s| && r == s[|s| - |r|..]
    ensures r != [] ==> !IsSpace(r[0])
    ensures forall k :: 0 <= k < |s| - |r| ==> IsSpace(s[k])
  {
    if s != [] && IsSpace(s[0]) then StripLeft(s[1..]) else s
  }

  function StripRight(s: string): (r: string)
    ensures |r| <= |s| && r == s[..|r|]
    ensures r != [] ==> !IsSpace(r[|r| - 1])
    ensures forall k :: |r| <= k < |s| ==> IsSpace(s[k])
  {
    if s != [] && IsSpace(s[|s| - 1]) then StripRight(s[..|s| - 1]) else s
  }

  /** `s.strip()`: the longest infix of `s` without white space at either end. */
  function Strip(s: string): (r: string)
    ensures r != [] ==> !IsSpace(r[0]) && !IsSpace(r[|r| - 1])
    ensures exists i :: OccursAt(s, r, i)
    ensures (forall k :: 0 <= k < |s| ==> !IsSpace(s[k])) ==> r == s
  {
    var l := StripLeft(s);
    var r := StripRight(l);
    assert r == s[|s| - |l|..|s| - |l| + |r|];
    assert OccursAt(s, r, |s| - |l|);
    r
  }

  // ---------------------------------------------------------------------------
  // str.split / str.join

  /** `s.split(sep)` for a non-empty separator. */
  function Split(s: string, sep: string): (parts: seq<string>)
    requires sep != []
    ensures |parts| >= 1
    decreases |s|
  {
    match IndexOfFrom(s, sep, 0)
    case None => [s]
    case Some(i) => [s[..i]] + Split(s[i + |sep|..], sep)
  }

  /** `sep.join(parts)`. */
  function Join(parts: seq<string>, sep: string): string {
    if parts == [] then []
    else if |parts| == 1 then parts[0]
    else parts[0] + sep + Join(parts[1..], sep)
  }

  /** Concatenation of strings, `''.join(parts)`. */
  function Concat(parts: seq<string>): string {
    if parts == [] then [] else parts[0] + Concat(parts[1..])
  }

  /** Splitting and joining again gives back the string. */
  lemma {:induction false} JoinSplit(s: string, sep: string)
    requires sep != []
    ensures Join(Split(s, sep), sep) == s
    decreases |s|
  {
    match IndexOfFrom(s, sep, 0)
    case None =>
    case Some(i) =>
      var rest := s[i + |sep|..];
      var tail := Split(rest, sep);
      calc {
        Join(Split(s, sep), sep);
      == { assert Split(s, sep) == [s[..i]] + tail; }
        Join([s[..i]] + tail, sep);
      == { JoinCons(s[..i], tail, sep); }
        s[..i] + sep + Join(tail, sep);
      == { JoinSplit(rest, sep); }
        s[..i] + sep + rest;
      == { assert s[i..i + |sep|] == sep; }
        s;
      }
  }

  lemma {:induction false} JoinCons(x: string, tail: seq<string>, sep: string)
    requires tail != []
    ensures Join([x] + tail, sep) == x + sep + Join(tail, sep)
  {
    assert ([x] + tail)[1..] == tail;
  }

  /** The separator never occurs inside a part. */
  lemma {:induction false} SplitPartsAvoidSeparator(s: string, sep: string, k: nat)
    requires sep != [] && k < |Split(s, sep)|
    ensures !Contains(Split(s, sep)[k], sep)
    decreases |s|
  {
    match IndexOfFrom(s, sep, 0)
    case None =>
      IndexOfNoneNotContains(s, sep);
    case Some(i) =>
      var rest := s[i + |sep|..];
      assert Split(s, sep) == [s[..i]] + Split(rest, sep);
      if k == 0 {
        BeforeFirstOccurrence(s, sep, i);
      } else {
        SplitPartsAvoidSeparator(rest, sep, k - 1);
        assert Split(s, sep)[k] == Split(rest, sep)[k - 1];
      }
  }

  /** A prefix ending before the first occurrence of `p` does not contain `p`. */
  lemma {:induction false} BeforeFirstOccurrence(s: string, p: string, i: nat)
    requires p != [] && i <= |s| && forall k :: 0 <= k < i ==> !OccursAt(s, p, k)
    ensures !Contains(s[..i], p)
  {
    forall j | 0 <= j <= i
      ensures !OccursAt(s[..i], p, j)
    {
      if j + |p| <= i {
        assert s[..i][j..j + |p|] == s[j..j + |p|];
        assert !OccursAt(s, p, j);
      }
    }
  }

  // ---------------------------------------------------------------------------
  // Decimal numerals: str(int), int(str) on digit strings, str.zfill

  predicate IsDigit(c: char) { '0' <= c <= '9' }

  function DigitChar(d: nat): (c: char)
    requires d < 10
    ensures IsDigit(c) && c as int - '0' as int == d
  {
    (d + '0' as int) as char
  }

  /** `str(n)` for a natural number. */
  function NatToString(n: nat): (s: string)
    ensures |s| >= 1 && forall k :: 0 <= k < |s| ==> IsDigit(s[k])
    ensures s[0] == '0' ==> n == 0
  {
    if n < 10 then [DigitChar(n)] else NatToString(n / 10) + [DigitChar(n % 10)]
  }

  /** Larger numbers have at least as many digits. */
  lemma {:induction false} NatToStringLengthMonotone(a: nat, b: nat)
    requires a <= b
    ensures |NatToString(a)| <= |NatToString(b)|
  {
    if a >= 10 {
      NatToStringLengthMonotone(a / 10, b / 10);
    }
  }

  /** `str(i)` for any integer. */
  function IntToString(i: int): string {
    if i < 0 then "-" + NatToString(-i) else NatToString(i)
  }

  /** The value of a string of decimal digits, `int(s)`. */
  function DecimalValue(s: string): nat
    requires forall k :: 0 <= k < |s| ==> IsDigit(s[k])
  {
    assert s == [] || IsDigit(s[|s| - 1]);
    if s == [] then 0
    else DecimalValue(s[..|s| - 1]) * 10 + (s[|s| - 1] as int - '0' as int)
  }

  /** `int(str(n)) == n`. */
  lemma {:induction false} DecimalValueOfNatToString(n: nat)
    ensures DecimalValue(NatToString(n)) == n
  {
    if n >= 10 {
      DecimalValueOfNatToString(n / 10);
      var s := NatToString(n);
      assert s[..|s| - 1] == NatToString(n / 10);
    }
  }

  /** Leading zeros do not change the value of a numeral. */
  lemma {:induction false} DecimalValueLeadingZeros(z: nat, s: string)
    requires forall k :: 0 <= k < |s| ==> IsDigit(s[k])
    ensures forall k :: 0 <= k < |Zeros(z) + s| ==> IsDigit((Zeros(z) + s)[k])
    ensures DecimalValue(Zeros(z) + s) == DecimalValue(s)
    decreases |s|
  {
    ZerosAreZeros(z);
    var t := Zeros(z) + s;
    assert forall k :: 0 <= k < |t| ==> IsDigit(t[k]) by {
      forall k | 0 <= k < |t| ensures IsDigit(t[k]) {
        if k < z { assert t[k] == '0'; } else { assert t[k] == s[k - z]; }
      }
    }
    if s == [] {
      assert t == Zeros(z);
      ZerosValue(z);
    } else {
      assert t[..|t| - 1] == Zeros(z) + s[..|s| - 1];
      DecimalValueLeadingZeros(z, s[..|s| - 1]);
    }
  }

  function Zeros(n: nat): string {
    if n == 0 then [] else Zeros(n - 1) + "0"
  }

  lemma {:induction false} ZerosAreZeros(n: nat)
    ensures |Zeros(n)| == n && forall k :: 0 <= k < n ==> Zeros(n)[k] == '0'
  {
    if n > 0 { ZerosAreZeros(n - 1); }
  }

  lemma {:induction false} ZerosValue(n: nat)
    ensures forall k :: 0 <= k < |Zeros(n)| ==> IsDigit(Zeros(n)[k])
    ensures DecimalValue(Zeros(n)) == 0
  {
    ZerosAreZeros(n);
    if n > 0 {
      ZerosValue(n - 1);
      assert Zeros(n)[..|Zeros(n)| - 1] == Zeros(n - 1);
    }
  }

  /** `s.zfill(width)`: pad with zeros on the left, after a leading sign. */
  function ZFill(s: string, width: int): string {
    if |s| >= width then s
    else if s != [] && (s[0] == '-' || s[0] == '+') then [s[0]] + Zeros(width - |s|) + s[1..]
    else Zeros(width - |s|) + s
  }

  /** A natural number padded with `zfill` still reads back as itself. */
  lemma {:induction false} ZFillNatRoundTrip(n: nat, width: int)
    ensures forall k :: 0 <= k < |ZFill(NatToString(n), width)| ==> IsDigit(ZFill(NatToString(n), width)[k])
    ensures DecimalValue(ZFill(NatToString(n), width)) == n
  {
    var s := NatToString(n);
    DecimalValueOfNatToString(n);
    if |s| < width {
      DecimalValueLeadingZeros(width - |s|, s);
    }
  }

  /** `str(n)` is injective. */
  lemma {:induction false} NatToStringInjective(a: nat, b: nat)
    requires NatToString(a) == NatToString(b)
    ensures a == b
  {
    DecimalValueOfNatToString(a);
    DecimalValueOfNatToString(b);
  }

  // ---------------------------------------------------------------------------
  // Insertion-ordered dictionaries

  /** No key occurs twice: the shape of a Python `dict` as a list of items. */
  predicate DistinctKeys<K(==), V>(d: seq<(K, V)>) {
    forall i, j :: 0 <= i < j < |d| ==> d[i].0 != d[j].0
  }

  function Keys<K, V>(d: seq<(K, V)>): (ks: seq<K>)
    ensures |ks| == |d| && forall i :: 0 <= i < |d| ==> ks[i] == d[i].0
  {
    if d == [] then [] else [d[0].0] + Keys(d[1..])
  }

  /** The position of key `k` in `d`, when `k` is a key. */
  function KeyIndex<K(==), V>(d: seq<(K, V)>, k: K): (r: Option<nat>)
    ensures r.None? <==> forall i :: 0 <= i < |d| ==> d[i].0 != k
    ensures r.Some? ==> r.value < |d| && d[r.value].0 == k
    ensures r.Some? ==> forall j :: 0 <= j < r.value ==> d[j].0 != k
  {
    if d == [] then None
    else if d[0].0 == k then Some(0)
    else match KeyIndex(d[1..], k)
      case None => None
      case Some(i) => Some(i + 1)
  }

  /** `d.get(k)`. */
  function Get<K(==), V>(d: seq<(K, V)>, k: K): Option<V> {
    match KeyIndex(d, k)
    case None => None
    case Some(i) => Some(d[i].1)
  }

  /** In a dict, `d.get(d_i.key)` is `d_i.value`. */
  lemma {:induction false} GetAt<K, V>(d: seq<(K, V)>, i: nat)
    requires DistinctKeys(d) && i < |d|
    ensures KeyIndex(d, d[i].0) == Some(i)
    ensures Get(d, d[i].0) == Some(d[i].1)
  {
  }

  /**
   * `d[k] = v`: an existing key keeps its position and takes the new value,
   * a new key is appended.
   */
  function Put<K(==), V>(d: seq<(K, V)>, k: K, v: V): (r: seq<(K, V)>)
    ensures DistinctKeys(d) ==> DistinctKeys(r)
  {
    match KeyIndex(d, k)
    case None => d + [(k, v)]
    case Some(i) => d[i := (k, v)]
  }

  /** Writing a key twice leaves the second value, where the first write put it. */
  lemma {:induction false} PutTwice<K, V>(d: seq<(K, V)>, k: K, v1: V, v2: V)
    ensures Put(Put(d, k, v1), k, v2) == Put(d, k, v2)
  {
    if KeyIndex(d, k).None? {
      var e := d + [(k, v1)];
      assert e[|d|].0 == k;
      assert KeyIndex(e, k) == Some(|d|);
    } else {
      var i := KeyIndex(d, k).value;
      var e := d[i := (k, v1)];
      assert e[i].0 == k;
      assert forall j :: 0 <= j < i ==> e[j] == d[j];
      assert KeyIndex(e, k) == Some(i);
    }
  }
}
