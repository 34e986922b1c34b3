/**
 * Queries of the current package over given file names: the files carrying
 * all of some tags, the tags all files share, the tags of a name that belong
 * to groups of mutually exclusive tags, and the `YYYY-MM-DD` date stamp at
 * the start of a name.
 */
module Queries {
  import opened Wrappers
  import opened Text
  import opened Paths
  import opened Codec

  /** The tags of `name` include every one of `tags`. */
  predicate HasAllTags(name: string, tags: seq<string>) {
    forall k :: 0 <= k < |tags| ==> tags[k] in ExtractTags(name)
  }

  /** `filter_files_matching_tags(allfiles, tags)`: the files, in order, whose tags include all of `tags`. */
  function FilterFilesMatchingTags(allfiles: seq<string>, tags: seq<string>): (r: seq<string>)
    ensures forall x :: x in r <==> x in allfiles && HasAllTags(x, tags)
    ensures |r| <= |allfiles|
  {
    if allfiles == [] then []
    else
      var rest := FilterFilesMatchingTags(allfiles[1..], tags);
      if HasAllTags(allfiles[0], tags) then [allfiles[0]] + rest else rest
  }

  /** Filtering keeps the files in their order: the result is a subsequence of the input. */
  predicate IsSubsequence(r: seq<string>, s: seq<string>)
    decreases |s|
  {
    if r == [] then true
    else if s == [] then false
    else if r[0] == s[0] then IsSubsequence(r[1..], s[1..])
    else IsSubsequence(r, s[1..])
  }

  lemma {:induction false} FilterKeepsOrder(allfiles: seq<string>, tags: seq<string>)
    ensures IsSubsequence(FilterFilesMatchingTags(allfiles, tags), allfiles)
  {
    if allfiles != [] {
      FilterKeepsOrder(allfiles[1..], tags);
      var rest := FilterFilesMatchingTags(allfiles[1..], tags);
      if !HasAllTags(allfiles[0], tags) && rest != [] {
        assert IsSubsequence(rest, allfiles);
      }
    }
  }

  /** `set.intersection(*sets)`, with `None` for no sets. */
  function Intersection(sets: seq<set<string>>): (r: Option<set<string>>)
    ensures r.None? <==> sets == []
    ensures r.Some? ==> forall t :: t in r.value <==> forall k :: 0 <= k < |sets| ==> t in sets[k]
    decreases |sets|
  {
    if sets == [] then None
    else if |sets| == 1 then Some(sets[0])
    else
      var front := Intersection(sets[..|sets| - 1]).value;
      Some(front * sets[|sets| - 1])
  }

  /** `set(extract_tags_from_filename(name))` */
  function TagSet(name: string): (r: set<string>)
    ensures forall t :: t in r <==> t in ExtractTags(name)
  {
    set t | t in ExtractTags(name)
  }

  /** The list of tag sets `get_common_tags_from_files` builds, one per file. */
  function TagSets(files: seq<string>): (r: seq<set<string>>)
    ensures |r| == |files|
    ensures forall k :: 0 <= k < |files| ==> r[k] == TagSet(files[k])
  {
    if files == [] then [] else TagSets(files[..|files| - 1]) + [TagSet(files[|files| - 1])]
  }

  /** The intersection of the images of some items under `tagsOf` holds the tags every item's image holds. */
  lemma IntersectionOfImages<T>(xs: seq<T>, sets: seq<set<string>>, tagsOf: T -> seq<string>)
    requires |sets| == |xs|
    requires forall k :: 0 <= k < |xs| ==> forall t :: t in sets[k] <==> t in tagsOf(xs[k])
    ensures Intersection(sets).None? <==> xs == []
    ensures Intersection(sets).Some? ==>
      forall t :: t in Intersection(sets).value <==> forall k :: 0 <= k < |xs| ==> t in tagsOf(xs[k])
  {
  }

  /** A tag is common to the files when every file carries it. */
  lemma CommonTags(files: seq<string>)
    ensures Intersection(TagSets(files)).None? <==> files == []
    ensures Intersection(TagSets(files)).Some? ==>
      forall t :: t in Intersection(TagSets(files)).value <==> forall k :: 0 <= k < |files| ==> t in ExtractTags(files[k])
  {
    IntersectionOfImages(files, TagSets(files), ExtractTags);
  }

  /**
   * `get_common_tags_from_files(files)`: the intersection of the tag sets of
   * the files; `None` where `set.intersection` of no sets raises.
   */
  method GetCommonTagsFromFiles(files: seq<string>) returns (r: Option<set<string>>)
    ensures r == Intersection(TagSets(files))
    ensures r.None? <==> files == []
    ensures r.Some? ==> forall t :: t in r.value <==> forall k :: 0 <= k < |files| ==> t in ExtractTags(files[k])
  {
    var perFile: seq<set<string>> := [];
    var i := 0;
    while i < |files|
      invariant 0 <= i <= |files| && perFile == TagSets(files[..i])
    {
      assert files[..i + 1][..i] == files[..i];
      perFile := perFile + [TagSet(files[i])];
      i := i + 1;
    }
    assert files[..i] == files;
    r := Intersection(perFile);
    CommonTags(files);
  }

  /** How many groups hold `tag`. */
  function GroupsHolding(tag: string, groups: seq<seq<string>>): nat
    decreases |groups|
  {
    if groups == [] then 0
    else GroupsHolding(tag, groups[..|groups| - 1]) + (if tag in groups[|groups| - 1] then 1 else 0)
  }

  function Repeat(x: string, n: nat): (r: seq<string>)
    ensures |r| == n && forall y :: y in r ==> y == x
  {
    if n == 0 then [] else Repeat(x, n - 1) + [x]
  }

  /** The tags of a name that lie in some group, each once for every group holding it. */
  function UniqueTagsOf(tags: seq<string>, groups: seq<seq<string>>): seq<string>
    decreases |tags|
  {
    if tags == [] then []
    else UniqueTagsOf(tags[..|tags| - 1], groups) + Repeat(tags[|tags| - 1], GroupsHolding(tags[|tags| - 1], groups))
  }

  /** `get_unique_tags_from_filename(filename)` with `unique_tags` given as `groups`. */
  method GetUniqueTagsFromFilename(filename: string, groups: seq<seq<string>>) returns (result: seq<string>)
    ensures result == UniqueTagsOf(ExtractTags(filename), groups)
  {
    var filetags := ExtractTags(filename);
    result := UniqueTagsLoop(filetags, groups);
  }

  /** The two loops of `get_unique_tags_from_filename` over the tags of the name. */
  method UniqueTagsLoop(filetags: seq<string>, groups: seq<seq<string>>) returns (result: seq<string>)
    ensures result == UniqueTagsOf(filetags, groups)
  {
    result := [];
    var i := 0;
    while i < |filetags|
      invariant 0 <= i <= |filetags|
      invariant result == UniqueTagsOf(filetags[..i], groups)
    {
      var tag := filetags[i];
      var before := result;
      var j := 0;
      while j < |groups|
        invariant 0 <= j <= |groups|
        invariant result == before + Repeat(tag, GroupsHolding(tag, groups[..j]))
      {
        assert groups[..j + 1][..j] == groups[..j];
        if tag in groups[j] {
          result := result + [tag];
        }
        j := j + 1;
      }
      assert groups[..j] == groups;
      assert filetags[..i + 1][..i] == filetags[..i];
      i := i + 1;
    }
    assert filetags[..i] == filetags;
  }

  lemma {:induction false} GroupsHoldingPositive(tag: string, groups: seq<seq<string>>)
    ensures GroupsHolding(tag, groups) > 0 <==> exists k :: 0 <= k < |groups| && tag in groups[k]
    decreases |groups|
  {
    if groups != [] {
      var front := groups[..|groups| - 1];
      GroupsHoldingPositive(tag, front);
      assert forall k :: 0 <= k < |front| ==> front[k] == groups[k];
    }
  }

  /** A tag is reported exactly when the name carries it and some group holds it. */
  lemma {:induction false} UniqueTagsMembers(tags: seq<string>, groups: seq<seq<string>>)
    ensures forall t :: t in UniqueTagsOf(tags, groups) <==> t in tags && exists k :: 0 <= k < |groups| && t in groups[k]
    decreases |tags|
  {
    if tags != [] {
      var front := tags[..|tags| - 1];
      var last := tags[|tags| - 1];
      UniqueTagsMembers(front, groups);
      GroupsHoldingPositive(last, groups);
      assert tags == front + [last];
      var n := GroupsHolding(last, groups);
      if n > 0 {
        assert Repeat(last, n)[n - 1] == last;
      }
    }
  }

  /** `YYYY_MM_DD_PATTERN`: four digits, `-`, `0` or `1` and a digit, `-`, `0` to `3` and a digit, then `-`, ` `, `_` or `T`. */
  predicate HasDatestamp(s: string) {
    |s| >= 11
    && IsDigit(s[0]) && IsDigit(s[1]) && IsDigit(s[2]) && IsDigit(s[3]) && s[4] == '-'
    && '0' <= s[5] <= '1' && IsDigit(s[6]) && s[7] == '-'
    && '0' <= s[8] <= '3' && IsDigit(s[9])
    && (s[10] == '-' || s[10] == ' ' || s[10] == '_' || s[10] == 'T')
  }

  /** `extract_iso_datestamp_from_filename(filename)`: year, month and day, or `[]`. */
  function ExtractIsoDatestamp(filename: string): (r: seq<string>)
    ensures r == [] <==> !HasDatestamp(filename)
    ensures r != [] ==> |r| == 3 && filename[..10] == r[0] + "-" + r[1] + "-" + r[2]
  {
    if HasDatestamp(filename) then [filename[..4], filename[5..7], filename[8..10]] else []
  }

  /** A name built from a valid date stamp gives the stamp back. */
  lemma DatestampRoundTrip(year: string, month: string, day: string, sep: char, rest: string)
    requires |year| == 4 && AllDigits(year)
    requires |month| == 2 && '0' <= month[0] <= '1' && IsDigit(month[1])
    requires |day| == 2 && '0' <= day[0] <= '3' && IsDigit(day[1])
    requires sep == '-' || sep == ' ' || sep == '_' || sep == 'T'
    ensures ExtractIsoDatestamp(year + "-" + month + "-" + day + [sep] + rest) == [year, month, day]
  {
    var s := year + "-" + month + "-" + day + [sep] + rest;
    assert s[..4] == year && s[5..7] == month && s[8..10] == day;
    assert s[4] == '-' && s[7] == '-' && s[10] == sep;
    assert s[0] == year[0] && s[1] == year[1] && s[2] == year[2] && s[3] == year[3];
    assert s[5] == month[0] && s[6] == month[1] && s[8] == day[0] && s[9] == day[1];
  }
}
