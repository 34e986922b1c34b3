/**
 * `itertools.permutations(avail, d)` over a list of tags: the selections of
 * `d` distinct positions in lexicographic order of the positions, how many
 * there are, and which lists they are.
 */
module Permutations {

  function RemoveAt(s: seq<string>, i: nat): (r: seq<string>)
    requires i < |s|
    ensures |r| == |s| - 1
  {
    s[..i] + s[i + 1..]
  }

  lemma RemoveAtMultiset(s: seq<string>, i: nat)
    requires i < |s|
    ensures multiset(RemoveAt(s, i)) + multiset{s[i]} == multiset(s)
  {
    assert s == s[..i] + [s[i]] + s[i + 1..];
  }

  /** `[[x] + p for p in ps]` */
  function Prefixed(x: string, ps: seq<seq<string>>): (r: seq<seq<string>>)
    ensures |r| == |ps|
    ensures forall k :: 0 <= k < |ps| ==> r[k] == [x] + ps[k]
  {
    seq(|ps|, k requires 0 <= k < |ps| => [x] + ps[k])
  }

  /**
   * `itertools.permutations(avail, d)`: the selections of `d` distinct
   * positions, in lexicographic order of the positions.
   */
  function Perms(avail: seq<string>, d: nat): seq<seq<string>>
    decreases |avail|, 1, 0
  {
    if d == 0 then [[]] else PermsFrom(avail, d, 0)
  }

  /** The permutations of length `d` whose first position is `i` or later. */
  function PermsFrom(avail: seq<string>, d: nat, i: nat): seq<seq<string>>
    requires 1 <= d && i <= |avail|
    decreases |avail|, 0, |avail| - i
  {
    if i == |avail| then []
    else Prefixed(avail[i], Perms(RemoveAt(avail, i), d - 1)) + PermsFrom(avail, d, i + 1)
  }

  /** `n * (n - 1) * ... * (n - d + 1)`: the number of `d`-permutations of `n` items. */
  function FallingFactorial(n: nat, d: nat): nat {
    if d == 0 then 1 else if n == 0 then 0 else n * FallingFactorial(n - 1, d - 1)
  }

  lemma {:induction false} PermsCount(avail: seq<string>, d: nat)
    ensures |Perms(avail, d)| == FallingFactorial(|avail|, d)
    decreases |avail|, 1, 0
  {
    if d > 0 {
      PermsFromCount(avail, d, 0);
      if |avail| > 0 {
        assert FallingFactorial(|avail|, d) == |avail| * FallingFactorial(|avail| - 1, d - 1);
      }
    }
  }

  lemma {:induction false} PermsFromCount(avail: seq<string>, d: nat, i: nat)
    requires 1 <= d && i <= |avail|
    ensures |avail| > 0 ==> |PermsFrom(avail, d, i)| == (|avail| - i) * FallingFactorial(|avail| - 1, d - 1)
    ensures |avail| == 0 ==> PermsFrom(avail, d, i) == []
    decreases |avail|, 0, |avail| - i
  {
    if i < |avail| {
      PermsCount(RemoveAt(avail, i), d - 1);
      PermsFromCount(avail, d, i + 1);
      var x := FallingFactorial(|avail| - 1, d - 1);
      assert (|avail| - i) * x == x + (|avail| - i - 1) * x;
    }
  }

  /** Every permutation selects `d` items of `avail`, each at most as often as it occurs there. */
  lemma {:induction false} PermsSound(avail: seq<string>, d: nat)
    ensures forall p :: p in Perms(avail, d) ==> |p| == d && multiset(p) <= multiset(avail)
    decreases |avail|, 1, 0
  {
    if d > 0 {
      PermsFromSound(avail, d, 0);
    }
  }

  /** Putting `x` in front of selections from `xs` gives selections from `xs` and `x`. */
  lemma PrefixedSound(x: string, ps: seq<seq<string>>, xs: seq<string>, n: nat)
    requires forall q :: q in ps ==> |q| == n && multiset(q) <= multiset(xs)
    ensures forall p :: p in Prefixed(x, ps) ==> |p| == n + 1 && multiset(p) <= multiset(xs) + multiset{x}
  {
    forall p | p in Prefixed(x, ps)
      ensures |p| == n + 1 && multiset(p) <= multiset(xs) + multiset{x}
    {
      var k :| 0 <= k < |ps| && p == Prefixed(x, ps)[k];
      assert p == [x] + ps[k];
      assert multiset(p) == multiset{x} + multiset(ps[k]);
    }
  }

  /** Two lists of `d`-selections of `avail`, one after the other, are a list of them. */
  lemma SelectionsConcat(a: seq<seq<string>>, b: seq<seq<string>>, c: seq<seq<string>>, avail: seq<string>, d: nat)
    requires c == a + b
    requires forall p :: p in a ==> |p| == d && multiset(p) <= multiset(avail)
    requires forall p :: p in b ==> |p| == d && multiset(p) <= multiset(avail)
    ensures forall p :: p in c ==> |p| == d && multiset(p) <= multiset(avail)
  {
  }

  /** The permutations with first position `i` select `d` items of `avail`. */
  lemma PrefixedPermsSound(avail: seq<string>, d: nat, i: nat)
    requires 1 <= d && i < |avail|
    ensures forall p :: p in Prefixed(avail[i], Perms(RemoveAt(avail, i), d - 1)) ==> |p| == d && multiset(p) <= multiset(avail)
    decreases |avail|, 0, 0
  {
    var rest := RemoveAt(avail, i);
    RemoveAtMultiset(avail, i);
    PermsSound(rest, d - 1);
    PrefixedSound(avail[i], Perms(rest, d - 1), rest, d - 1);
  }

  lemma {:induction false} PermsFromSound(avail: seq<string>, d: nat, i: nat)
    requires 1 <= d && i <= |avail|
    ensures forall p :: p in PermsFrom(avail, d, i) ==> |p| == d && multiset(p) <= multiset(avail)
    decreases |avail|, 0, |avail| - i
  {
    if i < |avail| {
      var a := Prefixed(avail[i], Perms(RemoveAt(avail, i), d - 1));
      PrefixedPermsSound(avail, d, i);
      PermsFromSound(avail, d, i + 1);
      SelectionsConcat(a, PermsFrom(avail, d, i + 1), PermsFrom(avail, d, i), avail, d);
    }
  }

  /** A permutation with first position `j` is produced by `PermsFrom` from any `i <= j`. */
  lemma {:induction false} PermsFromHolds(avail: seq<string>, d: nat, i: nat, j: nat, q: seq<string>)
    requires 1 <= d && i <= j < |avail|
    requires q in Perms(RemoveAt(avail, j), d - 1)
    ensures [avail[j]] + q in PermsFrom(avail, d, i)
    decreases j - i
  {
    if i == j {
      var ps := Perms(RemoveAt(avail, j), d - 1);
      var k :| 0 <= k < |ps| && ps[k] == q;
      assert Prefixed(avail[j], ps)[k] == [avail[j]] + q;
    } else {
      PermsFromHolds(avail, d, i + 1, j, q);
    }
  }

  /** Every selection of `d` items of `avail` (counted with multiplicity) is a permutation. */
  lemma {:induction false} PermsComplete(avail: seq<string>, d: nat, p: seq<string>)
    requires |p| == d && multiset(p) <= multiset(avail)
    ensures p in Perms(avail, d)
    decreases d
  {
    if d > 0 {
      assert p[0] in multiset(p);
      assert p[0] in avail;
      var j :| 0 <= j < |avail| && avail[j] == p[0];
      var rest := RemoveAt(avail, j);
      TailSelection(avail, j, p);
      PermsComplete(rest, d - 1, p[1..]);
      assert p == [avail[j]] + p[1..];
      PermsFromHolds(avail, d, 0, j, p[1..]);
    }
  }

  /** Taking the first item of a selection out of `avail` leaves the rest of the selection a selection. */
  lemma TailSelection(avail: seq<string>, j: nat, p: seq<string>)
    requires j < |avail| && p != [] && avail[j] == p[0] && multiset(p) <= multiset(avail)
    ensures multiset(p[1..]) <= multiset(RemoveAt(avail, j))
  {
    var rest := RemoveAt(avail, j);
    RemoveAtMultiset(avail, j);
    assert p == [p[0]] + p[1..];
    assert multiset(p) == multiset{p[0]} + multiset(p[1..]);
    assert multiset(rest) + multiset{p[0]} == multiset(avail);
    forall x ensures multiset(p[1..])[x] <= multiset(rest)[x] {
      assert multiset(p)[x] <= multiset(avail)[x];
    }
  }

  /** The permutations are exactly the `d`-selections of `avail`. */
  lemma PermsMembers(avail: seq<string>, d: nat, p: seq<string>)
    ensures p in Perms(avail, d) <==> |p| == d && multiset(p) <= multiset(avail)
  {
    PermsSound(avail, d);
    if |p| == d && multiset(p) <= multiset(avail) {
      PermsComplete(avail, d, p);
    }
  }

  lemma PrefixedSingle(x: string, p: seq<string>)
    ensures Prefixed(x, [p]) == [[x] + p]
  {
  }

  /** The permutations of length 1 or more with no position left. */
  lemma PermsFromEnd(avail: seq<string>, d: nat)
    requires 1 <= d
    ensures PermsFrom(avail, d, |avail|) == []
  {
  }

  /** `x` in front of the selections from the others, when the one at position `i` is `x`. */
  lemma PermsFromStep(avail: seq<string>, d: nat, i: nat, x: string, rest: seq<string>, ps: seq<seq<string>>)
    requires 1 <= d && i < |avail| && x == avail[i] && rest == RemoveAt(avail, i) && ps == Perms(rest, d - 1)
    ensures PermsFrom(avail, d, i) == Prefixed(x, ps) + PermsFrom(avail, d, i + 1)
  {
  }

  /** A single tag has itself as its only permutation of length 1. */
  lemma PermsSingle(a: string)
    ensures Perms([a], 1) == [[a]]
  {
    var rest := RemoveAt([a], 0);
    assert rest == [];
    PermsFromStep([a], 1, 0, a, rest, [[]]);
    PermsFromEnd([a], 1);
    PrefixedSingle(a, []);
    assert [a] + [] == [a];
  }

  /** Position `i` of two tags contributes `[x] + q` for the one selection `q` of the other tag. */
  lemma PairStep(tags: seq<string>, d: nat, i: nat, x: string, other: seq<string>, q: seq<string>)
    requires |tags| == 2 && (d == 1 || d == 2) && i < 2 && x == tags[i] && other == [tags[1 - i]]
    requires Perms(other, d - 1) == [q]
    ensures PermsFrom(tags, d, i) == [[x] + q] + PermsFrom(tags, d, i + 1)
  {
    assert RemoveAt(tags, i) == other;
    PermsFromStep(tags, d, i, x, other, [q]);
    PrefixedSingle(x, q);
  }

  /** The permutations of length 1 of two tags. */
  lemma PairDepthOne(tags: seq<string>, a: string, b: string)
    requires tags == [a, b]
    ensures Perms(tags, 1) == [[a], [b]]
  {
    assert Perms([b], 0) == [[]] && Perms([a], 0) == [[]];
    PairStep(tags, 1, 0, a, [b], []);
    PairStep(tags, 1, 1, b, [a], []);
    PermsFromEnd(tags, 1);
    assert [a] + [] == [a] && [b] + [] == [b];
    assert Perms(tags, 1) == PermsFrom(tags, 1, 0);
  }

  /** The permutations of length 2 of two tags. */
  lemma PairDepthTwo(tags: seq<string>, a: string, b: string)
    requires tags == [a, b]
    ensures Perms(tags, 2) == [[a, b], [b, a]]
  {
    PermsSingle(a);
    PermsSingle(b);
    PairStep(tags, 2, 0, a, [b], [b]);
    PairStep(tags, 2, 1, b, [a], [a]);
    PermsFromEnd(tags, 2);
    assert [a] + [b] == [a, b] && [b] + [a] == [b, a];
    assert Perms(tags, 2) == PermsFrom(tags, 2, 0);
  }

  /** The tags `a b` give `a` and `b` at depth 1 and `a/b`, `b/a` at depth 2. */
  lemma PermsExample(tags: seq<string>, a: string, b: string)
    requires tags == [a, b]
    ensures Perms(tags, 1) == [[a], [b]]
    ensures Perms(tags, 2) == [[a, b], [b, a]]
  {
    PairDepthOne(tags, a, b);
    PairDepthTwo(tags, a, b);
  }
}
