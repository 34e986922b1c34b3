/**
 * `SimpleCompleter`, the readline completer for tags: it keeps its options
 * sorted and, on the first call for a text (`state == 0`), rebuilds the list
 * of options that start with that text; each call returns the `state`-th
 * match. The readline library itself is not part of this model.
 */
module Completer {
  import opened Wrappers
  import opened Text

  /** `s and s.startswith(text)` */
  predicate Completes(s: string, text: string) {
    s != "" && StartsWith(s, text)
  }

  /** The match list built for `text`: all options when `text` is empty, otherwise those it begins. */
  function MatchList(options: seq<string>, text: string): (r: seq<string>)
    ensures |r| <= |options|
    ensures text == "" ==> r == options
    ensures text != "" ==> forall s :: s in r <==> s in options && Completes(s, text)
    decreases |options|
  {
    if text == "" then options
    else if options == [] then []
    else
      var last := options[|options| - 1];
      MatchList(options[..|options| - 1], text) + (if Completes(last, text) then [last] else [])
  }

  /** `xs[i]` with Python's negative indices; `None` where it raises `IndexError`. */
  function ItemAt(xs: seq<string>, i: int): (r: Option<string>)
    ensures r.None? <==> i < -|xs| || |xs| <= i
    ensures r.Some? ==> r.value in xs
    ensures 0 <= i < |xs| ==> r == Some(xs[i])
  {
    if 0 <= i < |xs| then Some(xs[i])
    else if -|xs| <= i < 0 then Some(xs[|xs| + i])
    else None
  }

  /** Taking options that begin a text keeps them in their sorted order. */
  lemma {:induction false} MatchListSorted(options: seq<string>, text: string)
    requires Sorted(options)
    ensures Sorted(MatchList(options, text))
    decreases |options|
  {
    if text != "" && options != [] {
      var front := options[..|options| - 1];
      var last := options[|options| - 1];
      assert Sorted(front) by {
        assert forall i :: 0 <= i < |front| ==> front[i] == options[i];
      }
      MatchListSorted(front, text);
      var m := MatchList(front, text);
      if Completes(last, text) {
        forall i, j | 0 <= i < j < |m| + 1
          ensures LessEq((m + [last])[i], (m + [last])[j])
        {
          if j == |m| {
            assert m[i] in front;
            var k :| 0 <= k < |front| && front[k] == m[i];
            assert options[k] == m[i];
          } else {
            assert (m + [last])[i] == m[i] && (m + [last])[j] == m[j];
          }
        }
      }
    }
  }

  class SimpleCompleter {
    var options: seq<string>
    /** `self.matches`; `None` until the first call with `state == 0`. */
    var matches: Option<seq<string>>

    /** The options are sorted, and a match list is a sorted list of options. */
    predicate Valid()
      reads this
    {
      Sorted(options)
      && (matches.Some? ==> Sorted(matches.value) && forall s :: s in matches.value ==> s in options)
    }

    /** `SimpleCompleter(options)`: keeps the options sorted. */
    constructor(opts: seq<string>)
      ensures options == SortStrings(opts) && matches == None
      ensures Valid()
      ensures forall s :: s in options <==> s in opts
    {
      options := SortStrings(opts);
      matches := None;
      SortStringsSame(opts);
    }

    /**
     * `complete(text, state)`. A call with `state != 0` before any call with
     * `state == 0` raises `AttributeError` in the source and is excluded.
     */
    method Complete(text: string, state: int) returns (response: Option<string>)
      requires Valid()
      requires state == 0 || matches.Some?
      modifies this
      ensures Valid()
      ensures options == old(options)
      ensures state == 0 ==> matches == Some(MatchList(options, text))
      ensures state != 0 ==> matches == old(matches)
      ensures response == ItemAt(matches.value, state)
      ensures state == 0 && response.Some? ==> response.value in options && (text != "" ==> Completes(response.value, text))
    {
      if state == 0 {
        MatchListSorted(options, text);
        matches := Some(MatchList(options, text));
      }
      response := ItemAt(matches.value, state);
    }
  }

  /** The tags completing `"fo"` among `["bar", "fob", "foo"]`. */
  lemma CompletionExample(options: seq<string>, text: string)
    requires options == ["bar", "fob", "foo"] && text == "fo"
    ensures MatchList(options, text) == ["fob", "foo"]
    ensures MatchList(options, "") == options
  {
    assert options[..2] == ["bar", "fob"] && options[..1] == ["bar"] && options[..0] == [];
    assert options[1][..2] == text && options[2][..2] == text;
    assert options[0][..2][0] == 'b' != text[0];
    assert MatchList(options[..1], text) == [] by {
      assert !Completes(options[0], text);
    }
    assert MatchList(options[..2], text) == [options[1]] by {
      assert Completes(options[1], text);
    }
    assert Completes(options[2], text);
  }
}
