/**
 * The codec of the oldest script, `filetag.py`. Its tag regex
 * `(.*) -- (.*)\.(.*)$` is greedy: the stem runs up to the last ` -- ` that
 * some dot follows, the extension is the text after the last dot, and the tag
 * list is what lies in between. The stem and the tag list may be empty, and a
 * name without a dot is never tagged.
 */
module OldestCodec {
  import opened Wrappers
  import opened Text
  import opened Codec
  import opened CodecProps

  /** The three groups of a match of the greedy tag regex. */
  datatype Groups = Groups(stem: string, tagList: string, ext: string)

  /** The largest index below `bound` where a separator starts. */
  function LastSeparatorBelow(s: string, bound: nat): (r: Option<nat>)
    ensures r.Some? ==> r.value < bound && SeparatorAt(s, r.value)
    ensures forall j :: (r.None? || r.value < j) && j < bound ==> !SeparatorAt(s, j)
    decreases bound
  {
    if bound == 0 then None
    else if SeparatorAt(s, bound - 1) then Some(bound - 1)
    else LastSeparatorBelow(s, bound - 1)
  }

  /**
   * `re.match(FILE_WITH_TAGS_REGEX, filename)`: the last dot ends the tag
   * list, and the last separator that fits before it ends the stem.
   */
  function OldParse(name: string): Option<Groups>
  {
    match LastIndexOf(name, '.')
    case None => None
    case Some(d) =>
      if d < 4 then None
      else
        match LastSeparatorBelow(name, d - 3)
        case None => None
        case Some(i) => Some(Groups(name[..i], name[i + 4..d], name[d + 1..]))
  }

  /**
   * A match splits the name into stem, separator, tag list, dot and
   * extension; the extension holds no dot, and no separator starts after the
   * stem's within the tag list.
   */
  lemma OldParseSpec(name: string)
    ensures OldParse(name).Some? ==>
      var g := OldParse(name).value;
      name == g.stem + Separator + g.tagList + "." + g.ext && '.' !in g.ext
      && forall j :: |g.stem| < j <= |g.stem| + |g.tagList| ==> !SeparatorAt(name, j)
  {
    if OldParse(name).Some? {
      var d := LastIndexOf(name, '.').value;
      var i := LastSeparatorBelow(name, d - 3).value;
      assert name == name[..i] + Separator + name[i + 4..d] + "." + name[d + 1..];
    }
  }

  /** The tags of a name: its tag list split on spaces, `[]` when it is not tagged. */
  function OldTagsOf(name: string): seq<string> {
    match OldParse(name)
    case None => []
    case Some(g) => Split(g.tagList, ' ')
  }

  /** `contains_tag(filename, tagname)`; an empty tag asks whether the name is tagged at all. */
  predicate OldHasTag(filename: string, tagname: string) {
    if tagname == "" then OldParse(filename).Some? else tagname in OldTagsOf(filename)
  }

  /**
   * `adding_tag_to_filename(filename, tagname)`. `None` is the
   * `AttributeError` raised for an untagged name without a dot, whose
   * extension match is `None`.
   */
  function OldAddTag(filename: string, tagname: string): (r: Option<string>)
    ensures r.None? <==> OldParse(filename).None? && '.' !in filename
  {
    if OldParse(filename).None? then
      match SplitAtLastDot(filename)
      case None => None
      case Some((b, e)) => Some(b + Separator + tagname + "." + e)
    else if OldHasTag(filename, tagname) then Some(filename)
    else
      var d := LastIndexOf(filename, '.').value;
      assert filename[d] == '.';
      var (b, e) := SplitAtLastDot(filename).value;
      Some(b + " " + tagname + "." + e)
  }

  /** `removing_tag_from_filename(filename, tagname)` */
  function OldRemoveTag(filename: string, tagname: string): string {
    if !OldHasTag(filename, tagname) then filename
    else
      match OldParse(filename)
      case None => filename
      case Some(g) =>
        var tags := Split(g.tagList, ' ');
        if |tags| < 2 then g.stem + "." + g.ext
        else g.stem + Separator + Join(Without(tags, tagname), ' ') + "." + g.ext
  }

  // ---------------------------------------------------------------------
  // Recognition

  /** A separator that no later one below `bound` follows is the one found. */
  lemma {:induction false} LastSeparatorBelowIs(s: string, bound: nat, i: nat)
    requires i < bound && SeparatorAt(s, i)
    requires forall j :: i < j < bound ==> !SeparatorAt(s, j)
    ensures LastSeparatorBelow(s, bound) == Some(i)
    decreases bound
  {
    if bound - 1 != i {
      LastSeparatorBelowIs(s, bound - 1, i);
    }
  }

  /** A name is tagged exactly when a separator in it is followed, somewhere later, by a dot. */
  lemma OldTaggedIff(name: string)
    ensures OldParse(name).Some? <==>
      exists i, d :: 0 <= i && i + 4 <= d < |name| && SeparatorAt(name, i) && name[d] == '.'
  {
    match LastIndexOf(name, '.')
    case None =>
    case Some(d0) =>
      if exists i, d :: 0 <= i && i + 4 <= d < |name| && SeparatorAt(name, i) && name[d] == '.' {
        var i, d :| 0 <= i && i + 4 <= d < |name| && SeparatorAt(name, i) && name[d] == '.';
        assert i < d0 - 3;
      }
      if OldParse(name).Some? {
        var i := LastSeparatorBelow(name, d0 - 3).value;
        assert SeparatorAt(name, i) && name[d0] == '.';
      }
  }

  /** The parse of a name whose last dot and last separator before that dot are known. */
  lemma OldParseAt(s: string, i: nat, d: nat)
    requires LastIndexOf(s, '.') == Some(d) && 4 <= d
    requires LastSeparatorBelow(s, d - 3) == Some(i)
    ensures OldParse(s) == Some(Groups(s[..i], s[i + 4..d], s[d + 1..]))
  {
  }

  /** Greedy matching: `a -- b -- c.txt` has stem `a -- b` and the single tag `c`. */
  lemma GreedyExample(s: string)
    requires s == "a -- b -- c.txt"
    ensures OldParse(s) == Some(Groups("a -- b", "c", "txt"))
    ensures OldTagsOf(s) == ["c"]
  {
    LastIndexOfIs(s, '.', 11);
    assert SeparatorAt(s, 6) && !SeparatorAt(s, 7);
    LastSeparatorBelowIs(s, 8, 6);
    OldParseAt(s, 6, 11);
    assert s[..6] == "a -- b";
    assert s[10..11] == "c";
    assert s[12..] == "txt";
    SplitNoSeparator("c", ' ');
  }

  // ---------------------------------------------------------------------
  // Adding and removing

  /** No separator starts in ` -- t.` after its first character, for a tag without spaces. */
  lemma NoSeparatorInAddedTag(s: string, b: string, t: string, e: string)
    requires s == b + Separator + t + "." + e && ' ' !in t
    ensures forall j :: |b| < j <= |b| + |t| ==> !SeparatorAt(s, j)
  {
    forall j | |b| < j <= |b| + |t| ensures !SeparatorAt(s, j) {
      if j == |b| + 3 {
        if |t| >= 3 {
          assert s[j + 3] == t[2];
        }
      } else if j > |b| + 3 {
        assert s[j] == t[j - |b| - 4];
      }
    }
  }

  /** Adding a tag to an untagged name with a dot puts ` -- t` before the last dot; the result has `t` as its only tag. */
  lemma OldAddUntagged(name: string, t: string, b: string, e: string)
    requires OldParse(name).None? && SplitAtLastDot(name) == Some((b, e))
    requires t != "" && ' ' !in t
    ensures OldAddTag(name, t) == Some(b + Separator + t + "." + e)
    ensures OldParse(b + Separator + t + "." + e) == Some(Groups(b, t, e))
    ensures OldTagsOf(b + Separator + t + "." + e) == [t]
  {
    var s := b + Separator + t + "." + e;
    var d := |b| + 4 + |t|;
    assert s[d + 1..] == e && s[d] == '.';
    LastIndexOfIs(s, '.', d);
    NoSeparatorInAddedTag(s, b, t, e);
    assert SeparatorAt(s, |b|);
    LastSeparatorBelowIs(s, d - 3, |b|);
    OldParseAt(s, |b|, d);
    assert s[..|b|] == b && s[|b| + 4..d] == t;
    SplitNoSeparator(t, ' ');
  }

  /** Removing a tag just added to an untagged name with a dot gives the name back. */
  lemma OldRemoveAfterAdd(name: string, t: string)
    requires OldParse(name).None? && '.' in name
    requires t != "" && ' ' !in t
    ensures OldAddTag(name, t).Some? && OldRemoveTag(OldAddTag(name, t).value, t) == name
  {
    var (b, e) := SplitAtLastDot(name).value;
    OldAddUntagged(name, t, b, e);
  }

  /** Where the last dot of a tagged name is: before its extension. */
  lemma SplitTagged(name: string, g: Groups)
    requires OldParse(name) == Some(g)
    ensures SplitAtLastDot(name) == Some((g.stem + Separator + g.tagList, g.ext))
  {
    OldParseSpec(name);
    SplitAtLastDotIs(name, g.stem + Separator + g.tagList, g.ext);
  }

  /** A separator of `b + " " + t + "."...` at or after the stem starts no later than the space before `t`. */
  lemma SeparatorBeforeSpace(s: string, b: string, t: string, e: string, i: nat)
    requires s == b + " " + t + "." + e && ' ' !in t
    requires SeparatorAt(s, i) && i + 4 <= |b| + 1 + |t|
    ensures i + 4 <= |b| + 1
  {
    assert forall k :: |b| < k < |b| + 1 + |t| ==> s[k] == t[k - |b| - 1];
  }

  /** The last word of a text ending in ` t`, or of `t` itself, is `t`. */
  lemma LastWord(x: string, t: string)
    requires x == "" || x[|x| - 1] == ' '
    requires ' ' !in t
    ensures t in Split(x + t, ' ')
  {
    SplitLast(x, t);
    var ts := Split(x + t, ' ');
    assert ts[|ts| - 1] in ts;
  }

  /** Adding a tag to a tagged name that lacks it inserts ` t` before the last dot. */
  lemma OldAddTaggedShape(name: string, t: string)
    requires OldParse(name).Some? && !OldHasTag(name, t)
    ensures var g := OldParse(name).value;
      OldAddTag(name, t) == Some(g.stem + Separator + g.tagList + " " + t + "." + g.ext)
  {
    SplitTagged(name, OldParse(name).value);
  }

  /** The pieces of `b + " " + t + "." + e`. */
  lemma InsertedPieces(s: string, b: string, t: string, e: string)
    requires s == b + " " + t + "." + e
    ensures s[|b|] == ' ' && s[|b| + 1..|b| + 1 + |t|] == t
    ensures s[|b| + 1 + |t|] == '.' && s[|b| + 2 + |t|..] == e
  {
  }

  /** A piece of a text ending in ` t` that starts before that space. */
  lemma TailBeforeWord(s: string, b: string, t: string, j: nat)
    requires j <= |b| + 1 && |b| + 1 + |t| <= |s|
    requires s[|b|] == ' ' && s[|b| + 1..|b| + 1 + |t|] == t
    ensures var x := s[j..|b| + 1]; s[j..|b| + 1 + |t|] == x + t && (x == "" || x[|x| - 1] == ' ')
  {
    var x := s[j..|b| + 1];
    if x != "" {
      assert x[|x| - 1] == s[|b|];
    }
  }

  /** A text with a separator before ` t` and a last dot right after `t` carries `t`. */
  lemma InsertedTagFound(s: string, b: string, t: string, e: string, i0: nat)
    requires s == b + " " + t + "." + e && '.' !in e
    requires t != "" && ' ' !in t
    requires SeparatorAt(s, i0) && i0 + 4 <= |b|
    ensures OldHasTag(s, t)
  {
    var d := |b| + 1 + |t|;
    InsertedPieces(s, b, t, e);
    LastIndexOfIs(s, '.', d);
    var i := LastSeparatorBelow(s, d - 3).value;
    SeparatorBeforeSpace(s, b, t, e, i);
    TailBeforeWord(s, b, t, i + 4);
    var x := s[i + 4..|b| + 1];
    LastWord(x, t);
    OldParseAt(s, i, d);
    OldHasTagOf(s, Groups(s[..i], x + t, s[d + 1..]), t);
  }

  lemma OldHasTagOf(s: string, g: Groups, t: string)
    requires OldParse(s) == Some(g) && t != "" && t in Split(g.tagList, ' ')
    ensures OldHasTag(s, t)
  {
  }

  /** Adding a tag to a tagged name that lacks it gives a name that carries it. */
  lemma OldAddTagged(name: string, t: string)
    requires OldParse(name).Some? && !OldHasTag(name, t)
    requires t != "" && ' ' !in t
    ensures OldAddTag(name, t).Some? && OldHasTag(OldAddTag(name, t).value, t)
  {
    var g := OldParse(name).value;
    var b := g.stem + Separator + g.tagList;
    OldAddTaggedShape(name, t);
    var s := b + " " + t + "." + g.ext;
    assert SeparatorAt(s, |g.stem|) by {
      assert s[..|b|] == b;
    }
    InsertedTagFound(s, b, t, g.ext, |g.stem|);
  }

  /**
   * Removing a tag from a tagged name: unchanged when the tag is absent, the
   * stem and extension alone when it is the sole tag, and otherwise a tag
   * list that reads back as the other tags, in their order.
   */
  lemma OldRemoveTagEffect(name: string, t: string)
    requires t != "" && OldParse(name).Some?
    ensures var g := OldParse(name).value; var tags := Split(g.tagList, ' ');
      (t !in tags ==> OldRemoveTag(name, t) == name)
      && (t in tags && |tags| < 2 ==> OldRemoveTag(name, t) == g.stem + "." + g.ext)
      && (t in tags && |tags| >= 2 ==> OldRemoveTag(name, t) == g.stem + Separator + Join(Without(tags, t), ' ') + "." + g.ext)
    ensures var g := OldParse(name).value; var rest := Without(Split(g.tagList, ' '), t);
      rest != [] ==> Split(Join(rest, ' '), ' ') == rest
  {
    var g := OldParse(name).value;
    var tags := Split(g.tagList, ' ');
    var rest := Without(tags, t);
    if rest != [] {
      forall k | 0 <= k < |rest| ensures ' ' !in rest[k] {
        assert rest[k] in tags;
      }
      SplitJoin(rest, ' ');
    }
  }

  /** Greedy matching re-tags: removing `c` from `a -- b -- c.txt` leaves `a -- b.txt`, which is tagged with `b`. */
  lemma OldRemoveRetagsExample(s: string)
    requires s == "a -- b -- c.txt"
    ensures OldRemoveTag(s, "c") == "a -- b.txt"
    ensures OldTagsOf("a -- b.txt") == ["b"]
  {
    GreedyExample(s);
    var r := "a -- b.txt";
    LastIndexOfIs(r, '.', 6);
    assert SeparatorAt(r, 1);
    LastSeparatorBelowIs(r, 3, 1);
    OldParseAt(r, 1, 6);
    assert r[..1] == "a";
    assert r[5..6] == "b";
    assert r[7..] == "txt";
    SplitNoSeparator("b", ' ');
  }
}
