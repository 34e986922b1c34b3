/**
 * Reading a controlled vocabulary (the `.filetags` file): one tag per line,
 * or, on a line holding a space, a group of mutually exclusive tags. The
 * lines are given; locating and opening the file is not part of this model.
 */
module Vocabulary {
  import opened Text

  const BetweenTagSeparator: char := ' '

  /** The tags one line contributes: the stripped line split on spaces, or the stripped line itself. */
  function LineTags(rawline: string): seq<string>
  {
    var line := Strip(rawline);
    if BetweenTagSeparator in line then Split(line, BetweenTagSeparator) else [line]
  }

  /** The group of mutually exclusive tags one line contributes, if it holds a space. */
  function LineGroups(rawline: string): seq<seq<string>>
  {
    var line := Strip(rawline);
    if BetweenTagSeparator in line then [Split(line, BetweenTagSeparator)] else []
  }

  /** What `f` gives for each line, concatenated in the order of the lines. */
  function Gather<T>(f: string -> seq<T>, lines: seq<string>): seq<T>
    decreases |lines|
  {
    if lines == [] then [] else Gather(f, lines[..|lines| - 1]) + f(lines[|lines| - 1])
  }

  /** The tag list read from the lines, in order. */
  function VocabularyTags(lines: seq<string>): seq<string>
  {
    Gather(LineTags, lines)
  }

  /** The groups appended to `unique_tags`, in order. */
  function VocabularyGroups(lines: seq<string>): seq<seq<string>>
  {
    Gather(LineGroups, lines)
  }

  /**
   * The reading loop of `locate_and_parse_controlled_vocabulary`: returns the
   * tag list and `unique_tags` extended by the groups found.
   */
  method ParseVocabulary(lines: seq<string>, uniqueTags: seq<seq<string>>) returns (tags: seq<string>, groups: seq<seq<string>>)
    ensures tags == VocabularyTags(lines)
    ensures groups == uniqueTags + VocabularyGroups(lines)
  {
    tags := [];
    groups := uniqueTags;
    var i := 0;
    while i < |lines|
      invariant 0 <= i <= |lines|
      invariant tags == VocabularyTags(lines[..i])
      invariant groups == uniqueTags + VocabularyGroups(lines[..i])
    {
      VocabularyStep(lines, i);
      ghost var added := LineGroups(lines[i]);
      tags, groups := ReadLine(lines[i], tags, groups);
      assert groups == uniqueTags + VocabularyGroups(lines[..i + 1]) by {
        assert groups == uniqueTags + VocabularyGroups(lines[..i]) + added;
        assert uniqueTags + VocabularyGroups(lines[..i]) + added == uniqueTags + (VocabularyGroups(lines[..i]) + added);
      }
      i := i + 1;
    }
    assert lines[..i] == lines;
  }

  /** The body of the reading loop for one raw line. */
  method ReadLine(rawline: string, tags: seq<string>, groups: seq<seq<string>>) returns (tags': seq<string>, groups': seq<seq<string>>)
    ensures tags' == tags + LineTags(rawline)
    ensures groups' == groups + LineGroups(rawline)
  {
    var line := Strip(rawline);
    if BetweenTagSeparator in line {
      var group := Split(line, BetweenTagSeparator);
      groups' := groups + [group];
      tags' := AppendEach(tags, group);
    } else {
      groups' := groups;
      tags' := tags + [line];
    }
  }

  /** `for tag in group: tags.append(tag)` */
  method AppendEach(tags: seq<string>, group: seq<string>) returns (r: seq<string>)
    ensures r == tags + group
  {
    r := tags;
    var j := 0;
    while j < |group|
      invariant 0 <= j <= |group|
      invariant r == tags + group[..j]
    {
      assert group[..j + 1] == group[..j] + [group[j]];
      r := r + [group[j]];
      j := j + 1;
    }
    assert group[..j] == group;
  }

  /** Reading one more line appends what that line contributes. */
  lemma VocabularyStep(lines: seq<string>, i: nat)
    requires i < |lines|
    ensures VocabularyTags(lines[..i + 1]) == VocabularyTags(lines[..i]) + LineTags(lines[i])
    ensures VocabularyGroups(lines[..i + 1]) == VocabularyGroups(lines[..i]) + LineGroups(lines[i])
  {
    assert lines[..i + 1][..i] == lines[..i];
  }

  /** An item gathered comes from some line, and every item of every line is gathered. */
  lemma {:induction false} GatherMembers<T>(f: string -> seq<T>, lines: seq<string>)
    ensures forall i, t :: 0 <= i < |lines| && t in f(lines[i]) ==> t in Gather(f, lines)
    ensures forall t :: t in Gather(f, lines) ==> exists i :: 0 <= i < |lines| && t in f(lines[i])
    decreases |lines|
  {
    if lines != [] {
      var n := |lines| - 1;
      var front := lines[..n];
      GatherMembers(f, front);
      forall i, t | 0 <= i < n && t in f(lines[i])
        ensures t in Gather(f, lines)
      {
        assert front[i] == lines[i];
      }
      forall t | t in Gather(f, front)
        ensures exists i :: 0 <= i < |lines| && t in f(lines[i])
      {
        var i :| 0 <= i < |front| && t in f(front[i]);
        assert front[i] == lines[i];
      }
    }
  }

  /** A stripped line holding the separator splits into at least two pieces. */
  lemma SplitHoldingSeparator(s: string, c: char)
    requires c in s
    ensures |Split(s, c)| >= 2
  {
    JoinSplit(s, c);
  }

  /** The tags of a line, joined by spaces, are the stripped line, and none of them holds a space. */
  lemma LineTagsJoin(rawline: string)
    ensures Join(LineTags(rawline), BetweenTagSeparator) == Strip(rawline)
    ensures forall k :: 0 <= k < |LineTags(rawline)| ==> BetweenTagSeparator !in LineTags(rawline)[k]
  {
    JoinSplit(Strip(rawline), BetweenTagSeparator);
  }

  /** The tags read are exactly those some line contributes. */
  lemma VocabularyTagsFromLines(lines: seq<string>)
    ensures forall i, t :: 0 <= i < |lines| && t in LineTags(lines[i]) ==> t in VocabularyTags(lines)
    ensures forall t :: t in VocabularyTags(lines) ==> exists i :: 0 <= i < |lines| && t in LineTags(lines[i])
  {
    GatherMembers(LineTags, lines);
  }

  /** No tag read holds a space. */
  lemma {:induction false} VocabularyTagsNoSpace(lines: seq<string>)
    ensures forall t :: t in VocabularyTags(lines) ==> BetweenTagSeparator !in t
    decreases |lines|
  {
    if lines != [] {
      VocabularyTagsNoSpace(lines[..|lines| - 1]);
      LineTagsJoin(lines[|lines| - 1]);
    }
  }

  /** The group of a line, if any, is the line's tag list and holds at least two tags. */
  lemma LineGroupShape(rawline: string)
    ensures forall g :: g in LineGroups(rawline) ==> g == LineTags(rawline) && |g| >= 2
  {
    var line := Strip(rawline);
    if BetweenTagSeparator in line {
      SplitHoldingSeparator(line, BetweenTagSeparator);
    }
  }

  /** Every group read is the tag list of some line, with at least two tags. */
  lemma {:induction false} GroupsAreLineTags(lines: seq<string>)
    ensures forall g :: g in VocabularyGroups(lines) ==>
      |g| >= 2 && exists i :: 0 <= i < |lines| && g == LineTags(lines[i])
    decreases |lines|
  {
    if lines != [] {
      var front := lines[..|lines| - 1];
      var n := |lines| - 1;
      GroupsAreLineTags(front);
      LineGroupShape(lines[n]);
      assert forall i :: 0 <= i < |front| ==> front[i] == lines[i];
    }
  }

  /** Every tag of a group read is in the tag list as well. */
  lemma GroupTagsListed(lines: seq<string>)
    ensures forall g, t :: g in VocabularyGroups(lines) && t in g ==> t in VocabularyTags(lines)
  {
    GroupsAreLineTags(lines);
    VocabularyTagsFromLines(lines);
  }

  /** A line without a space adds its stripped text as one tag and no group. */
  lemma PlainLine(lines: seq<string>, rawline: string)
    requires BetweenTagSeparator !in Strip(rawline)
    ensures VocabularyTags(lines + [rawline]) == VocabularyTags(lines) + [Strip(rawline)]
    ensures VocabularyGroups(lines + [rawline]) == VocabularyGroups(lines)
  {
    assert (lines + [rawline])[..|lines|] == lines;
  }
}
