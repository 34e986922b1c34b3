/**
 * String primitives that the filetags code takes from Python: `str.split` and
 * `str.join` on one separator character, `str.strip`, `str.startswith`,
 * `rfind`, the regex classes `\w` and `\d`, and `sorted` on strings (code point
 * order).
 */
module Text {
  import opened Wrappers

  /** The regex class `\w`: ASCII letters, digits and the underscore. */
  predicate IsWordChar(c: char) {
    ('a' <= c <= 'z') || ('A' <= c <= 'Z') || ('0' <= c <= '9') || c == '_'
  }

  predicate AllWordChars(s: string) {
    forall i :: 0 <= i < |s| ==> IsWordChar(s[i])
  }

  /**
   * The ASCII decimal digits, standing for the regex class `\d` and for the
   * characters `int()` reads as one digit. Python 3 admits every Unicode
   * decimal digit in both; the model does not.
   */
  predicate IsDigit(c: char) {
    '0' <= c <= '9'
  }

  predicate AllDigits(s: string) {
    forall i :: 0 <= i < |s| ==> IsDigit(s[i])
  }

  /** The characters for which Python's `str.isspace()` holds. */
  predicate IsSpace(c: char) {
    c == ' ' || ('\t' <= c <= '\r') || ('\U{1C}' <= c <= '\U{1F}') || c == '\U{85}' || c == '\U{A0}'
    || c == '\U{1680}' || ('\U{2000}' <= c <= '\U{200A}') || c == '\U{2028}' || c == '\U{2029}'
    || c == '\U{202F}' || c == '\U{205F}' || c == '\U{3000}'
  }

  /** `s.startswith(p)` */
  predicate StartsWith(s: string, p: string) {
    |p| <= |s| && s[..|p|] == p
  }

  /** `s.rfind(c)`, with `None` for -1. */
  function LastIndexOf(s: string, c: char): (r: Option<nat>)
    ensures r.Some? ==> r.value < |s| && s[r.value] == c && c !in s[r.value + 1..]
    ensures r.None? ==> c !in s
  {
    if s == [] then None
    else if s[|s| - 1] == c then Some(|s| - 1)
    else
      var r := LastIndexOf(s[..|s| - 1], c);
      assert s == s[..|s| - 1] + [s[|s| - 1]];
      r
  }

  /** `s.split(c)`: the pieces between occurrences of `c`; empty pieces are kept. */
  function Split(s: string, c: char): (r: seq<string>)
    ensures |r| >= 1
    ensures forall k :: 0 <= k < |r| ==> c !in r[k]
  {
    if s == [] then [""]
    else
      var rest := Split(s[1..], c);
      if s[0] == c then [""] + rest
      else [[s[0]] + rest[0]] + rest[1..]
  }

  /** `c.join(ss)` */
  function Join(ss: seq<string>, c: char): string
  {
    if |ss| == 0 then ""
    else if |ss| == 1 then ss[0]
    else ss[0] + [c] + Join(ss[1..], c)
  }

  /** `[x for x in xs if x != y]` */
  function Without<T(==,!new)>(xs: seq<T>, y: T): (r: seq<T>)
    ensures forall x :: x in r <==> x in xs && x != y
    ensures |r| <= |xs|
  {
    if xs == [] then []
    else if xs[0] == y then Without(xs[1..], y)
    else [xs[0]] + Without(xs[1..], y)
  }

  /** No element occurs twice. */
  predicate Distinct<T(==)>(xs: seq<T>) {
    forall i, j :: 0 <= i < j < |xs| ==> xs[i] != xs[j]
  }

  /** Putting a new value in front of distinct values keeps them distinct. */
  lemma DistinctCons<T>(x: T, xs: seq<T>)
    requires Distinct(xs) && x !in xs
    ensures Distinct([x] + xs)
  {
    var r := [x] + xs;
    forall i, j | 0 <= i < j < |r| ensures r[i] != r[j] {
      assert r[j] == xs[j - 1];
      if i > 0 {
        assert r[i] == xs[i - 1];
      }
    }
  }

  /** Dropping a value that does not occur changes nothing. */
  lemma {:induction false} WithoutAbsent<T(!new)>(xs: seq<T>, y: T)
    requires y !in xs
    ensures Without(xs, y) == xs
  {
    if xs != [] {
      WithoutAbsent(xs[1..], y);
      assert xs == [xs[0]] + xs[1..];
    }
  }

  /** Dropping the only value leaves nothing; dropping one of two distinct values leaves something. */
  lemma WithoutEmpty<T(!new)>(xs: seq<T>, y: T)
    requires y in xs && Distinct(xs)
    ensures Without(xs, y) == [] <==> |xs| < 2
  {
    if |xs| < 2 {
      assert xs == [y];
      assert Without(xs, y) == Without(xs[1..], y);
    } else {
      var k := if xs[0] != y then 0 else 1;
      assert xs[k] != y;
      assert xs[k] in Without(xs, y);
    }
  }

  /** Dropping two values gives the same sequence in either order. */
  lemma {:induction false} WithoutCommutes<T(!new)>(xs: seq<T>, a: T, b: T)
    ensures Without(Without(xs, a), b) == Without(Without(xs, b), a)
  {
    if xs != [] {
      WithoutCommutes(xs[1..], a, b);
      var x := xs[0];
      var ta := Without(xs[1..], a);
      var tb := Without(xs[1..], b);
      if x != a {
        assert Without(xs, a) == [x] + ta;
        assert Without([x] + ta, b) == if x == b then Without(ta, b) else [x] + Without(ta, b) by {
          assert ([x] + ta)[1..] == ta;
        }
      }
      if x != b {
        assert Without(xs, b) == [x] + tb;
        assert Without([x] + tb, a) == if x == a then Without(tb, a) else [x] + Without(tb, a) by {
          assert ([x] + tb)[1..] == tb;
        }
      }
    }
  }

  /** Dropping a value from two sequences one after the other drops it from each. */
  lemma {:induction false} WithoutConcat<T(!new)>(xs: seq<T>, ys: seq<T>, y: T)
    ensures Without(xs + ys, y) == Without(xs, y) + Without(ys, y)
  {
    if xs == [] {
      assert xs + ys == ys;
    } else {
      assert (xs + ys)[0] == xs[0] && (xs + ys)[1..] == xs[1..] + ys;
      WithoutConcat(xs[1..], ys, y);
    }
  }

  /** Dropping a value keeps distinct values distinct. */
  lemma {:induction false} WithoutDistinct<T(!new)>(xs: seq<T>, y: T)
    requires Distinct(xs)
    ensures Distinct(Without(xs, y))
  {
    if xs != [] {
      assert Distinct(xs[1..]) by {
        forall i, j | 0 <= i < j < |xs[1..]| ensures xs[1..][i] != xs[1..][j] {
          assert xs[1..][i] == xs[i + 1] && xs[1..][j] == xs[j + 1];
        }
      }
      WithoutDistinct(xs[1..], y);
      var rest := Without(xs[1..], y);
      if xs[0] != y {
        assert xs[0] !in xs[1..] by {
          forall k | 0 <= k < |xs[1..]| ensures xs[1..][k] != xs[0] {
            assert xs[1..][k] == xs[k + 1];
          }
        }
        assert xs[0] !in rest;
        var r := [xs[0]] + rest;
        forall i, j | 0 <= i < j < |r| ensures r[i] != r[j] {
          if i == 0 {
            assert r[j] == rest[j - 1];
            assert r[j] in rest;
          } else {
            assert r[i] == rest[i - 1] && r[j] == rest[j - 1];
          }
        }
      }
    }
  }

  /** `[x for x in xs if x not in rs]` */
  function FilterOut<T(==,!new)>(xs: seq<T>, rs: seq<T>): (r: seq<T>)
    ensures forall x :: x in r <==> x in xs && x !in rs
  {
    if xs == [] then []
    else if xs[0] in rs then FilterOut(xs[1..], rs)
    else [xs[0]] + FilterOut(xs[1..], rs)
  }

  /** Removing one more element extends the list of removed elements. */
  lemma {:induction false} WithoutFilterOut<T(!new)>(xs: seq<T>, rs: seq<T>, y: T)
    ensures Without(FilterOut(xs, rs), y) == FilterOut(xs, rs + [y])
  {
    if xs != [] {
      WithoutFilterOut(xs[1..], rs, y);
      assert xs[0] in rs + [y] <==> xs[0] in rs || xs[0] == y;
    }
  }

  /** Filtering out all of `rs` is filtering out all but its last element, then dropping that one. */
  lemma WithoutFilterOutLast<T(!new)>(xs: seq<T>, rs: seq<T>)
    requires rs != []
    ensures Without(FilterOut(xs, rs[..|rs| - 1]), rs[|rs| - 1]) == FilterOut(xs, rs)
  {
    WithoutFilterOut(xs, rs[..|rs| - 1], rs[|rs| - 1]);
    assert rs[..|rs| - 1] + [rs[|rs| - 1]] == rs;
  }

  /** What `FilterOut` keeps depends only on which elements are removed, not on their order or repetition. */
  lemma {:induction false} FilterOutSameElements<T(!new)>(xs: seq<T>, rs: seq<T>, qs: seq<T>)
    requires forall x :: x in xs ==> (x in rs <==> x in qs)
    ensures FilterOut(xs, rs) == FilterOut(xs, qs)
  {
    if xs != [] {
      assert xs[0] in xs;
      FilterOutSameElements(xs[1..], rs, qs);
    }
  }

  /** Filtering out nothing keeps everything. */
  lemma {:induction false} FilterOutNothing<T(!new)>(xs: seq<T>)
    ensures FilterOut(xs, []) == xs
  {
    if xs != [] {
      FilterOutNothing(xs[1..]);
      assert xs == [xs[0]] + xs[1..];
    }
  }

  /** Filtering keeps distinct values distinct. */
  lemma {:induction false} FilterOutDistinct<T(!new)>(xs: seq<T>, rs: seq<T>)
    requires Distinct(xs)
    ensures Distinct(FilterOut(xs, rs))
  {
    if xs != [] {
      assert Distinct(xs[1..]) by {
        forall i, j | 0 <= i < j < |xs[1..]| ensures xs[1..][i] != xs[1..][j] {
          assert xs[1..][i] == xs[i + 1] && xs[1..][j] == xs[j + 1];
        }
      }
      FilterOutDistinct(xs[1..], rs);
      var rest := FilterOut(xs[1..], rs);
      if xs[0] !in rs {
        assert xs[0] !in xs[1..] by {
          forall k | 0 <= k < |xs[1..]| ensures xs[1..][k] != xs[0] {
            assert xs[1..][k] == xs[k + 1];
          }
        }
        var r := [xs[0]] + rest;
        forall i, j | 0 <= i < j < |r| ensures r[i] != r[j] {
          if i == 0 {
            assert r[j] == rest[j - 1];
            assert r[j] in rest;
          } else {
            assert r[i] == rest[i - 1] && r[j] == rest[j - 1];
          }
        }
      }
    }
  }

  /** The index `rfind` finds is the last occurrence. */
  lemma LastIndexOfIs(s: string, c: char, k: nat)
    requires k < |s| && s[k] == c && c !in s[k + 1..]
    ensures LastIndexOf(s, c) == Some(k)
  {
    assert s[k] == c;
  }

  /** Joining the pieces of a split with the same character gives the text back. */
  lemma {:induction false} JoinSplit(s: string, c: char)
    ensures Join(Split(s, c), c) == s
  {
    if s != [] {
      JoinSplit(s[1..], c);
      var rest := Split(s[1..], c);
      if s[0] == c {
        assert Split(s, c) == [""] + rest;
        if |rest| == 1 {
          assert Join(Split(s, c), c) == "" + [c] + rest[0];
        } else {
          assert Join(Split(s, c), c) == "" + [c] + Join(rest, c);
        }
      } else {
        var r := Split(s, c);
        assert r == [[s[0]] + rest[0]] + rest[1..];
        if |rest| == 1 {
          assert Join(r, c) == [s[0]] + rest[0];
        } else {
          assert r[1..] == rest[1..];
          assert Join(r, c) == [s[0]] + rest[0] + [c] + Join(rest[1..], c);
          assert Join(rest, c) == rest[0] + [c] + Join(rest[1..], c);
        }
      }
      assert s == [s[0]] + s[1..];
    }
  }

  /** A text without the separator splits into itself alone. */
  lemma SplitNoSeparator(s: string, c: char)
    requires c !in s
    ensures Split(s, c) == [s]
  {
    if s != [] {
      SplitNoSeparator(s[1..], c);
      assert s == [s[0]] + s[1..];
    }
  }

  /** Splitting two texts joined by the separator splits each of them. */
  lemma {:induction false} SplitConcat(a: string, b: string, c: char)
    ensures Split(a + [c] + b, c) == Split(a, c) + Split(b, c)
  {
    if a == [] {
      assert a + [c] + b == [c] + b;
      assert ([c] + b)[1..] == b;
    } else {
      var s := a + [c] + b;
      assert s[0] == a[0];
      assert s[1..] == a[1..] + [c] + b;
      SplitConcat(a[1..], b, c);
    }
  }

  /** Pieces without the separator, joined by it, split back into those pieces. */
  lemma {:induction false} SplitJoin(ts: seq<string>, c: char)
    requires |ts| >= 1
    requires forall k :: 0 <= k < |ts| ==> c !in ts[k]
    ensures Split(Join(ts, c), c) == ts
  {
    if |ts| == 1 {
      SplitNoSeparator(ts[0], c);
    } else {
      SplitJoin(ts[1..], c);
      SplitNoSeparator(ts[0], c);
      SplitConcat(ts[0], Join(ts[1..], c), c);
      assert ts == [ts[0]] + ts[1..];
    }
  }

  /** Joining one more piece appends the separator and the piece. */
  lemma {:induction false} JoinAppend(ts: seq<string>, t: string, c: char)
    requires |ts| >= 1
    ensures Join(ts + [t], c) == Join(ts, c) + [c] + t
  {
    if |ts| == 1 {
      assert (ts + [t])[1..] == [t];
    } else {
      assert (ts + [t])[1..] == ts[1..] + [t];
      JoinAppend(ts[1..], t, c);
    }
  }

  /** A character other than the separator occurs in the join only if it occurs in a piece. */
  lemma {:induction false} JoinCharacters(ts: seq<string>, c: char, d: char)
    requires d != c
    requires forall k :: 0 <= k < |ts| ==> d !in ts[k]
    ensures d !in Join(ts, c)
  {
    if |ts| > 1 {
      JoinCharacters(ts[1..], c, d);
    }
  }

  lemma JoinNonEmpty(ts: seq<string>, c: char)
    requires |ts| >= 1 && ts[0] != ""
    ensures Join(ts, c) != "" && Join(ts, c)[0] == ts[0][0]
  {
  }

  // ---------------------------------------------------------------------
  // str.strip()

  function StripLeft(s: string): (r: string)
    ensures |r| <= |s| && r == s[|s| - |r|..]
    ensures forall k :: 0 <= k < |s| - |r| ==> IsSpace(s[k])
    ensures r != [] ==> !IsSpace(r[0])
  {
    if s != [] && IsSpace(s[0]) then StripLeft(s[1..]) else s
  }

  function StripRight(s: string): (r: string)
    ensures |r| <= |s| && r == s[..|r|]
    ensures forall k :: |r| <= k < |s| ==> IsSpace(s[k])
    ensures r != [] ==> !IsSpace(r[|r| - 1])
  {
    if s != [] && IsSpace(s[|s| - 1]) then StripRight(s[..|s| - 1]) else s
  }

  /** `s.strip()`: leading and trailing whitespace removed. */
  function Strip(s: string): string
  {
    StripRight(StripLeft(s))
  }

  // ---------------------------------------------------------------------
  // Python's order on strings (code point by code point) and `sorted`

  predicate LessEq(a: string, b: string)
  {
    if a == [] then true
    else if b == [] then false
    else if a[0] != b[0] then a[0] < b[0]
    else LessEq(a[1..], b[1..])
  }

  lemma LessEqTotal(a: string, b: string)
    ensures LessEq(a, b) || LessEq(b, a)
  {
    if a != [] && b != [] && a[0] == b[0] {
      LessEqTotal(a[1..], b[1..]);
    }
  }

  lemma LessEqTransitive(a: string, b: string, c: string)
    requires LessEq(a, b) && LessEq(b, c)
    ensures LessEq(a, c)
  {
    if a != [] && b != [] && c != [] && a[0] == b[0] && b[0] == c[0] {
      LessEqTransitive(a[1..], b[1..], c[1..]);
    }
  }

  lemma LessEqAntisymmetric(a: string, b: string)
    requires LessEq(a, b) && LessEq(b, a)
    ensures a == b
  {
    if a != [] && b != [] {
      LessEqAntisymmetric(a[1..], b[1..]);
      assert a == [a[0]] + a[1..] && b == [b[0]] + b[1..];
    }
  }

  predicate Sorted(s: seq<string>)
  {
    forall i, j :: 0 <= i < j < |s| ==> LessEq(s[i], s[j])
  }

  function Insert(x: string, s: seq<string>): (r: seq<string>)
    requires Sorted(s)
    ensures Sorted(r)
    ensures multiset(r) == multiset(s) + multiset{x}
  {
    if s == [] then [x]
    else if LessEq(x, s[0]) then
      assert forall j :: 0 <= j < |s| ==> LessEq(x, s[j]) by {
        forall j | 0 <= j < |s| ensures LessEq(x, s[j]) {
          if j > 0 { LessEqTransitive(x, s[0], s[j]); }
        }
      }
      SortedCons(x, s);
      [x] + s
    else
      LessEqTotal(x, s[0]);
      var tail := Insert(x, s[1..]);
      LowerBoundOfInsert(s, x, tail);
      SortedCons(s[0], tail);
      assert s == [s[0]] + s[1..];
      [s[0]] + tail
  }

  /** A sorted list with a first element no greater than any of them is sorted. */
  lemma SortedCons(x: string, s: seq<string>)
    requires Sorted(s) && forall j :: 0 <= j < |s| ==> LessEq(x, s[j])
    ensures Sorted([x] + s)
  {
    var r := [x] + s;
    forall i, j | 0 <= i < j < |r| ensures LessEq(r[i], r[j]) {
      assert r[j] == s[j - 1];
      if i > 0 {
        assert r[i] == s[i - 1];
      }
    }
  }

  /** The head of a sorted list bounds the list it heads with one more element inserted. */
  lemma LowerBoundOfInsert(s: seq<string>, x: string, tail: seq<string>)
    requires Sorted(s) && s != [] && LessEq(s[0], x)
    requires multiset(tail) == multiset(s[1..]) + multiset{x}
    ensures forall j :: 0 <= j < |tail| ==> LessEq(s[0], tail[j])
  {
    forall j | 0 <= j < |tail| ensures LessEq(s[0], tail[j]) {
      var y := tail[j];
      assert y in multiset(tail);
      if y != x {
        assert y in multiset(s[1..]);
        var k :| 0 <= k < |s[1..]| && s[1..][k] == y;
        assert s[k + 1] == y;
      }
    }
  }

  /** `sorted(s)` for a list of strings. */
  function SortStrings(s: seq<string>): (r: seq<string>)
    ensures Sorted(r)
    ensures multiset(r) == multiset(s)
  {
    if s == [] then []
    else
      assert s == [s[0]] + s[1..];
      Insert(s[0], SortStrings(s[1..]))
  }

  /** Sorting keeps the length and the elements. */
  lemma SortStringsSame(s: seq<string>)
    ensures |SortStrings(s)| == |s|
    ensures forall x :: x in SortStrings(s) <==> x in s
  {
    var r := SortStrings(s);
    assert |multiset(r)| == |multiset(s)|;
    forall x ensures x in r <==> x in s {
      assert x in r <==> x in multiset(r);
      assert x in s <==> x in multiset(s);
    }
  }
}
