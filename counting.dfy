/**
 * `add_tag_to_countdict(tag, tags)`: the dictionary of tag counts is changed
 * in place (and returned): an existing tag counts one more, a new one starts
 * at one.
 */
module Counting {

  /** The dictionary after one call. */
  function Increment(counts: map<string, int>, tag: string): (r: map<string, int>)
    ensures r.Keys == counts.Keys + {tag}
    ensures r[tag] == if tag in counts then counts[tag] + 1 else 1
    ensures forall k :: k in counts && k != tag ==> r[k] == counts[k]
  {
    counts[tag := if tag in counts then counts[tag] + 1 else 1]
  }

  /** The dictionary after one call for each of `tags`, in order, starting from `counts`. */
  function IncrementAll(counts: map<string, int>, tags: seq<string>): map<string, int>
    decreases |tags|
  {
    if tags == [] then counts else Increment(IncrementAll(counts, tags[..|tags| - 1]), tags[|tags| - 1])
  }

  /** How often `t` occurs in `tags`. */
  function Occurrences(tags: seq<string>, t: string): nat
    decreases |tags|
  {
    if tags == [] then 0
    else Occurrences(tags[..|tags| - 1], t) + (if tags[|tags| - 1] == t then 1 else 0)
  }

  /** Counting a list of tags from an empty dictionary gives each tag its number of occurrences. */
  lemma {:induction false} CountsAreOccurrences(tags: seq<string>)
    ensures forall t :: t in IncrementAll(map[], tags) <==> t in tags
    ensures forall t :: t in tags ==> IncrementAll(map[], tags)[t] == Occurrences(tags, t)
    decreases |tags|
  {
    if tags != [] {
      var front := tags[..|tags| - 1];
      var last := tags[|tags| - 1];
      CountsAreOccurrences(front);
      assert forall t :: t in tags <==> t in front || t == last by {
        assert tags == front + [last];
      }
      forall t | t in tags && t != last
        ensures Occurrences(front, t) > 0
      {
        OccurrencesPositive(front, t);
      }
      if last !in front {
        OccurrencesAbsent(front, last);
      }
    }
  }

  lemma {:induction false} OccurrencesPositive(tags: seq<string>, t: string)
    requires t in tags
    ensures Occurrences(tags, t) > 0
    decreases |tags|
  {
    if tags[|tags| - 1] != t {
      var front := tags[..|tags| - 1];
      assert tags == front + [tags[|tags| - 1]];
      OccurrencesPositive(front, t);
    }
  }

  lemma {:induction false} OccurrencesAbsent(tags: seq<string>, t: string)
    requires t !in tags
    ensures Occurrences(tags, t) == 0
    decreases |tags|
  {
    if tags != [] {
      var front := tags[..|tags| - 1];
      assert forall x :: x in front ==> x in tags;
      OccurrencesAbsent(front, t);
    }
  }

  /** The dictionary `add_tag_to_countdict` changes in place. */
  class TagCounts {
    var counts: map<string, int>

    constructor()
      ensures counts == map[]
    {
      counts := map[];
    }

    /** `add_tag_to_countdict(tag, self.counts)` */
    method AddTag(tag: string)
      modifies this
      ensures counts == Increment(old(counts), tag)
    {
      if tag in counts {
        counts := counts[tag := counts[tag] + 1];
      } else {
        counts := counts[tag := 1];
      }
    }
  }
}
