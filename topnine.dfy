/**
 * `get_upto_nine_keys_of_dict_with_highest_value(mydict, omit)`: the keys
 * sorted by falling count (Python's stable `sorted(..., reverse=True)`, so
 * keys with equal counts keep the dictionary's order), without the omitted
 * ones, the first nine of them, sorted alphabetically.
 *
 * The dictionary is given as its entries in insertion order.
 */
module TopNine {
  import opened Text

  function Keys(entries: seq<(string, int)>): (r: seq<string>)
    ensures |r| == |entries| && forall i :: 0 <= i < |r| ==> r[i] == entries[i].0
  {
    if entries == [] then [] else [entries[0].0] + Keys(entries[1..])
  }

  /** A dictionary's entries: no key twice. */
  predicate IsDict(entries: seq<(string, int)>) {
    forall i, j :: 0 <= i < j < |entries| ==> entries[i].0 != entries[j].0
  }

  predicate ByFallingCount(s: seq<(string, int)>) {
    forall i, j :: 0 <= i < j < |s| ==> s[i].1 >= s[j].1
  }

  /** `[x]` when `x` has count `c`, otherwise `[]`. */
  function CountPart(x: (string, int), c: int): seq<(string, int)> {
    if x.1 == c then [x] else []
  }

  /** The entries of count `c`, in order. */
  function WithCount(s: seq<(string, int)>, c: int): seq<(string, int)> {
    if s == [] then [] else CountPart(s[0], c) + WithCount(s[1..], c)
  }

  lemma WithCountCons(h: (string, int), t: seq<(string, int)>, c: int)
    ensures WithCount([h] + t, c) == CountPart(h, c) + WithCount(t, c)
  {
    assert ([h] + t)[1..] == t;
  }

  lemma {:induction false} WithCountSnoc(s: seq<(string, int)>, x: (string, int), c: int)
    ensures WithCount(s + [x], c) == WithCount(s, c) + CountPart(x, c)
    decreases |s|
  {
    if s == [] {
      assert s + [x] == [x] + [];
      WithCountCons(x, [], c);
    } else {
      var h, t := s[0], s[1..];
      assert s + [x] == [h] + (t + [x]);
      calc {
        WithCount(s + [x], c);
        { WithCountCons(h, t + [x], c); }
        CountPart(h, c) + WithCount(t + [x], c);
        { WithCountSnoc(t, x, c); }
        CountPart(h, c) + (WithCount(t, c) + CountPart(x, c));
        CountPart(h, c) + WithCount(t, c) + CountPart(x, c);
        WithCount(s, c) + CountPart(x, c);
      }
    }
  }

  lemma TailFalling(s: seq<(string, int)>)
    requires ByFallingCount(s) && s != []
    ensures ByFallingCount(s[1..])
  {
    forall i, j | 0 <= i < j < |s[1..]| ensures s[1..][i].1 >= s[1..][j].1 {
      assert s[1..][i] == s[i + 1] && s[1..][j] == s[j + 1];
    }
  }

  /** No entry of a list by falling count has a count above that of its head. */
  lemma {:induction false} WithCountAbove(s: seq<(string, int)>, c: int)
    requires ByFallingCount(s) && s != [] && s[0].1 < c
    ensures WithCount(s, c) == []
  {
    if |s| > 1 {
      TailFalling(s);
      WithCountAbove(s[1..], c);
    }
  }

  /** Put `e` after every entry whose count is at least its own. */
  function InsertByCount(e: (string, int), s: seq<(string, int)>): (r: seq<(string, int)>)
    requires ByFallingCount(s)
    ensures ByFallingCount(r)
    ensures multiset(r) == multiset(s) + multiset{e}
    ensures forall x :: x in r <==> x in s || x == e
  {
    if s == [] then [e]
    else if s[0].1 >= e.1 then
      var tail := InsertByCount(e, s[1..]);
      assert s == [s[0]] + s[1..];
      FallingHead(s[0], tail, s[1..], e);
      [s[0]] + tail
    else
      FallingHead(e, s, s, e);
      [e] + s
  }

  lemma FallingHead(h: (string, int), t: seq<(string, int)>, s: seq<(string, int)>, e: (string, int))
    requires ByFallingCount(t) && ByFallingCount(s) && h.1 >= e.1
    requires forall x :: x in t ==> x in s || x == e
    requires forall x :: x in s ==> h.1 >= x.1
    ensures ByFallingCount([h] + t)
  {
    var r := [h] + t;
    forall i, j | 0 <= i < j < |r| ensures r[i].1 >= r[j].1 {
      assert r[j] == t[j - 1];
      assert t[j - 1] in t;
      if i > 0 {
        assert r[i] == t[i - 1];
      }
    }
  }

  /** `sorted(mydict, key=mydict.get, reverse=True)`, as entries. */
  function SortByCount(entries: seq<(string, int)>): (r: seq<(string, int)>)
    ensures ByFallingCount(r)
    ensures multiset(r) == multiset(entries)
    decreases |entries|
  {
    if entries == [] then []
    else
      var front := entries[..|entries| - 1];
      assert entries == front + [entries[|entries| - 1]];
      InsertByCount(entries[|entries| - 1], SortByCount(front))
  }

  /** Inserting `e` puts it last among the entries of its count and moves no other entry of any count. */
  lemma {:induction false} InsertByCountStable(e: (string, int), s: seq<(string, int)>, c: int)
    requires ByFallingCount(s)
    ensures WithCount(InsertByCount(e, s), c) == WithCount(s, c) + CountPart(e, c)
  {
    if s == [] {
      WithCountCons(e, [], c);
    } else if s[0].1 >= e.1 {
      TailFalling(s);
      InsertByCountStable(e, s[1..], c);
      InsertAfterHead(e, s, c);
    } else {
      InsertInFront(e, s, c);
    }
  }

  lemma InsertAfterHead(e: (string, int), s: seq<(string, int)>, c: int)
    requires ByFallingCount(s) && s != [] && s[0].1 >= e.1 && ByFallingCount(s[1..])
    requires WithCount(InsertByCount(e, s[1..]), c) == WithCount(s[1..], c) + CountPart(e, c)
    ensures WithCount(InsertByCount(e, s), c) == WithCount(s, c) + CountPart(e, c)
  {
    var tail := InsertByCount(e, s[1..]);
    assert InsertByCount(e, s) == [s[0]] + tail;
    ConsStep(s, tail, CountPart(e, c), c);
  }

  lemma InsertInFront(e: (string, int), s: seq<(string, int)>, c: int)
    requires ByFallingCount(s) && s != [] && s[0].1 < e.1
    ensures WithCount(InsertByCount(e, s), c) == WithCount(s, c) + CountPart(e, c)
  {
    assert InsertByCount(e, s) == [e] + s;
    if e.1 == c {
      WithCountAbove(s, c);
    }
    FrontStep(e, s, c);
  }

  /** The head of `s` put in front of a list whose entries of count `c` are those of the rest of `s` and then `p`. */
  lemma ConsStep(s: seq<(string, int)>, tail: seq<(string, int)>, p: seq<(string, int)>, c: int)
    requires s != [] && WithCount(tail, c) == WithCount(s[1..], c) + p
    ensures WithCount([s[0]] + tail, c) == WithCount(s, c) + p
  {
    WithCountCons(s[0], tail, c);
  }

  /** An entry put in front of a list holding no other entry of its count comes last among them. */
  lemma FrontStep(e: (string, int), s: seq<(string, int)>, c: int)
    requires e.1 == c ==> WithCount(s, c) == []
    ensures WithCount([e] + s, c) == WithCount(s, c) + CountPart(e, c)
  {
    WithCountCons(e, s, c);
  }

  /**
   * The sort is stable, as Python's `sorted` is with `reverse=True`: the
   * entries of each count come out in their order in the input, which
   * decides the keys of equal count that survive the cut to nine.
   */
  lemma {:induction false} SortByCountStable(entries: seq<(string, int)>, c: int)
    ensures WithCount(SortByCount(entries), c) == WithCount(entries, c)
    decreases |entries|
  {
    if entries != [] {
      var front := entries[..|entries| - 1];
      var last := entries[|entries| - 1];
      var sorted := SortByCount(front);
      assert SortByCount(entries) == InsertByCount(last, sorted);
      assert entries == front + [last];
      calc {
        WithCount(SortByCount(entries), c);
        { InsertByCountStable(last, sorted, c); }
        WithCount(sorted, c) + CountPart(last, c);
        { SortByCountStable(front, c); }
        WithCount(front, c) + CountPart(last, c);
        { WithCountSnoc(front, last, c); }
        WithCount(entries, c);
      }
    }
  }

  /** `[x for x in complete_list if x not in list_of_tags_to_omit]`, as entries. */
  function WithoutOmitted(s: seq<(string, int)>, omit: seq<string>): (r: seq<(string, int)>)
    ensures forall x :: x in r <==> x in s && x.0 !in omit
    ensures Keys(r) == FilterOut(Keys(s), omit)
  {
    if s == [] then []
    else if s[0].0 in omit then WithoutOmitted(s[1..], omit)
    else [s[0]] + WithoutOmitted(s[1..], omit)
  }

  /** `complete_list[:9]` */
  function FirstNine<T>(s: seq<T>): (r: seq<T>)
    ensures |r| <= 9 && |r| <= |s| && r == s[..|r|]
    ensures |r| < 9 ==> r == s
  {
    if |s| <= 9 then s else s[..9]
  }

  /** `get_upto_nine_keys_of_dict_with_highest_value(mydict, omit)` */
  function UptoNineKeys(entries: seq<(string, int)>, omit: seq<string>): seq<string> {
    SortStrings(Keys(FirstNine(WithoutOmitted(SortByCount(entries), omit))))
  }

  lemma KeysIn(s: seq<(string, int)>, k: string)
    ensures k in Keys(s) <==> exists i :: 0 <= i < |s| && s[i].0 == k
  {
    if k in Keys(s) {
      var i :| 0 <= i < |s| && Keys(s)[i] == k;
    }
  }

  lemma WithoutOmittedFalling(s: seq<(string, int)>, omit: seq<string>)
    requires ByFallingCount(s)
    ensures ByFallingCount(WithoutOmitted(s, omit))
  {
    if s != [] {
      WithoutOmittedFalling(s[1..], omit);
      if s[0].0 !in omit {
        var t := WithoutOmitted(s[1..], omit);
        forall x | x in t ensures s[0].1 >= x.1 {
          var j :| 0 <= j < |s[1..]| && s[1..][j] == x;
          assert s[j + 1] == x;
        }
        FallingHead(s[0], t, t, s[0]);
      }
    }
  }

  /** At most nine keys, none of them omitted, all of them keys of the dictionary, in alphabetical order. */
  lemma UptoNineShape(entries: seq<(string, int)>, omit: seq<string>)
    ensures |UptoNineKeys(entries, omit)| <= 9
    ensures Sorted(UptoNineKeys(entries, omit))
    ensures forall k :: k in UptoNineKeys(entries, omit) ==> k !in omit && k in Keys(entries)
  {
    var p := FirstNine(WithoutOmitted(SortByCount(entries), omit));
    SortStringsSame(Keys(p));
    forall k | k in Keys(p) ensures k !in omit && k in Keys(entries) {
      KeysIn(p, k);
      var i :| 0 <= i < |p| && p[i].0 == k;
      SortedEntryIn(entries, omit, p[i]);
      KeysIn(entries, k);
    }
  }

  /** An entry among the first nine is an entry of the dictionary whose key is not omitted. */
  lemma SortedEntryIn(entries: seq<(string, int)>, omit: seq<string>, x: (string, int))
    requires x in FirstNine(WithoutOmitted(SortByCount(entries), omit))
    ensures x in entries && x.0 !in omit
  {
    var s := SortByCount(entries);
    assert x in WithoutOmitted(s, omit);
    assert x in multiset(s);
  }

  /** Fewer than nine keys come back only when every key that is not omitted does. */
  lemma UptoNineAll(entries: seq<(string, int)>, omit: seq<string>, k: string)
    requires |UptoNineKeys(entries, omit)| < 9 && k in Keys(entries) && k !in omit
    ensures k in UptoNineKeys(entries, omit)
  {
    var s := SortByCount(entries);
    var f := WithoutOmitted(s, omit);
    var p := FirstNine(f);
    assert p == f by {
      SortStringsSame(Keys(p));
    }
    assert k in Keys(f) by {
      KeysIn(entries, k);
      var i :| 0 <= i < |entries| && entries[i].0 == k;
      assert entries[i] in f by {
        assert entries[i] in multiset(s);
      }
      KeysIn(f, k);
    }
    SortStringsSame(Keys(p));
  }

  lemma EntryOfKey(entries: seq<(string, int)>, i: nat, x: (string, int))
    requires IsDict(entries) && i < |entries| && x in entries && x.0 == entries[i].0
    ensures x == entries[i]
  {
  }

  lemma PrefixKeys(f: seq<(string, int)>, p: seq<(string, int)>)
    requires |p| <= |f| && p == f[..|p|]
    ensures forall b :: 0 <= b < |p| ==> f[b].0 in Keys(p)
  {
    forall b | 0 <= b < |p| ensures f[b].0 in Keys(p) {
      assert Keys(p)[b] == f[b].0;
    }
  }

  /** In a list by falling count, an entry of a prefix counts at least as much as an entry whose key is not in it. */
  lemma PrefixDominates(f: seq<(string, int)>, p: seq<(string, int)>, x: (string, int), y: (string, int))
    requires ByFallingCount(f) && |p| <= |f| && p == f[..|p|]
    requires x in p && y in f && y.0 !in Keys(p)
    ensures x.1 >= y.1
  {
    var a :| 0 <= a < |p| && p[a] == x;
    var b :| 0 <= b < |f| && f[b] == y;
    PrefixKeys(f, p);
    assert f[a] == p[a];
  }

  /** A key that comes back counts at least as much as every key that does not and is not omitted. */
  lemma UptoNineDominates(entries: seq<(string, int)>, omit: seq<string>, i: nat, j: nat)
    requires IsDict(entries) && i < |entries| && j < |entries|
    requires entries[i].0 in UptoNineKeys(entries, omit)
    requires entries[j].0 !in UptoNineKeys(entries, omit) && entries[j].0 !in omit
    ensures entries[i].1 >= entries[j].1
  {
    var s := SortByCount(entries);
    var f := WithoutOmitted(s, omit);
    var p := FirstNine(f);
    assert entries[i].0 in Keys(p) && entries[j].0 !in Keys(p) by {
      SortStringsSame(Keys(p));
    }
    assert entries[i] in p by {
      KeysIn(p, entries[i].0);
      var a :| 0 <= a < |p| && p[a].0 == entries[i].0;
      SortedEntryIn(entries, omit, p[a]);
      EntryOfKey(entries, i, p[a]);
    }
    assert entries[j] in f by {
      assert entries[j] in multiset(s);
    }
    WithoutOmittedFalling(s, omit);
    PrefixDominates(f, p, entries[i], entries[j]);
  }
}
