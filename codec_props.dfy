/**
 * What the current codec promises on well-formed names, and the misplaced
 * tag that `adding_tag_to_filename` produces on other names.
 *
 * A well-formed base name is `Render(n)` for a `Name` whose stem is
 * non-empty, holds no slash and no `--` (and no dot when there is no
 * extension), whose tags are distinct, non-empty and hold no space, dot or
 * slash, and whose extension is absent or non-empty word characters.
 */
module CodecProps {
  import opened Wrappers
  import opened Text
  import opened Paths
  import opened Codec

  /** A base name given by its parts. */
  datatype Name = Name(stem: string, tags: seq<string>, ext: Option<string>)

  function Render(n: Name): string {
    if n.tags == [] then n.stem + ExtensionSuffix(n.ext)
    else n.stem + Separator + Join(n.tags, ' ') + ExtensionSuffix(n.ext)
  }

  predicate NoDoubleDash(s: string) {
    forall i :: 0 <= i < |s| - 1 ==> !(s[i] == '-' && s[i + 1] == '-')
  }

  /**
   * A tag the regex reads back as one: non-empty, without space or dot, and
   * without slash, which would move the tags out of the base name (`a.txt`
   * with the tag `x/y` becomes `a -- x/y.txt`, whose base name `y.txt` is
   * untagged).
   */
  predicate ValidTag(t: string) {
    t != "" && ' ' !in t && '.' !in t && '/' !in t
  }

  predicate ValidExt(ext: Option<string>) {
    ext.Some? ==> ext.value != "" && AllWordChars(ext.value)
  }

  predicate ValidTags(ts: seq<string>) {
    forall k :: 0 <= k < |ts| ==> ValidTag(ts[k])
  }

  /**
   * The shape of a name the tag regex reads back: a non-empty stem without
   * `--` and `/` (without a dot too when there is no extension), an
   * extension of word characters, and valid tags, repeats allowed.
   */
  predicate Shaped(n: Name) {
    |n.stem| >= 1 && '/' !in n.stem && NoDoubleDash(n.stem) && (n.ext.None? ==> '.' !in n.stem)
    && ValidExt(n.ext) && ValidTags(n.tags)
  }

  /** A shaped name whose tags are distinct, as the add and remove operations keep them. */
  predicate WellFormed(n: Name) {
    Shaped(n) && Distinct(n.tags)
  }

  // ---------------------------------------------------------------------
  // Parsing rendered names

  lemma ExtensionSuffixChars(ext: Option<string>)
    requires ValidExt(ext)
    ensures forall k :: 0 <= k < |ExtensionSuffix(ext)| ==> ExtensionSuffix(ext)[k] == '.' || IsWordChar(ExtensionSuffix(ext)[k])
    ensures ExtensionSuffix(ext) != "" ==> ExtensionSuffix(ext)[0] == '.'
    ensures ExtensionSuffix(ext) != "" ==> '.' !in ExtensionSuffix(ext)[1..]
  {
    if ext.Some? {
      var e := ext.value;
      assert ExtensionSuffix(ext)[1..] == e;
      assert forall k :: 0 <= k < |e| ==> e[k] != '.' by {
        forall k | 0 <= k < |e| ensures e[k] != '.' {
          assert IsWordChar(e[k]);
        }
      }
    }
  }

  lemma ValidTagsJoin(ts: seq<string>)
    requires ValidTags(ts)
    ensures '.' !in Join(ts, ' ') && '/' !in Join(ts, ' ')
  {
    JoinCharacters(ts, ' ', '.');
    JoinCharacters(ts, ' ', '/');
  }

  /** No separator starts inside a stem without `--`, whatever follows the stem, unless a dash does. */
  lemma NoSeparatorInStem(s: string, stem: string)
    requires |stem| <= |s| && s[..|stem|] == stem && NoDoubleDash(stem)
    requires |s| > |stem| ==> s[|stem|] != '-'
    ensures forall j :: 0 <= j < |stem| ==> !SeparatorAt(s, j)
  {
    forall j | 0 <= j < |stem| ensures !SeparatorAt(s, j) {
      if j + 2 < |stem| {
        assert stem[j + 1] == s[j + 1] && stem[j + 2] == s[j + 2];
        assert !(stem[j + 1] == '-' && stem[j + 2] == '-');
      }
    }
  }

  /** The tag list and extension of a text whose last tag is `t`. */
  lemma TailTagList(p: string, t: string, ext: Option<string>)
    requires p == "" || p[|p| - 1] == ' '
    requires ValidTag(t) && ValidExt(ext)
    ensures TagListAndExtension(p + t + ExtensionSuffix(ext)) == (p + t, ext)
  {
    var rest := p + t + ExtensionSuffix(ext);
    if ext.None? {
      assert rest == p + t;
      var r := LastIndexOf(rest, '.');
      if r.Some? {
        var k := r.value;
        assert forall i :: |p| <= i < |rest| ==> rest[i] == t[i - |p|];
        assert k < |p| - 1;
        assert rest[k + 1..][|p| - 1 - (k + 1)] == ' ';
        assert !IsWordChar(' ');
      }
    } else {
      var e := ext.value;
      var k := |p| + |t|;
      assert rest == (p + t) + "." + e;
      ExtensionSuffixChars(ext);
      assert rest[k + 1..] == e;
      LastIndexOfIs(rest, '.', k);
      assert rest[..k] == p + t;
    }
  }

  /** The tag list and extension of an untagged text split into a base and an extension. */
  lemma TagListAndExtensionOf(b: string, ext: Option<string>)
    requires b != "" && ValidExt(ext)
    requires ext.None? ==> '.' !in b
    ensures TagListAndExtension(b + ExtensionSuffix(ext)) == (b, ext)
  {
    match ext
    case None =>
      assert b + ExtensionSuffix(ext) == b;
    case Some(e) =>
      var s := b + ExtensionSuffix(ext);
      ExtensionSuffixChars(ext);
      assert s[|b| + 1..] == e;
      LastIndexOfIs(s, '.', |b|);
      assert s[..|b|] == b;
  }

  lemma SplitLast(p: string, t: string)
    requires p == "" || p[|p| - 1] == ' '
    requires ' ' !in t
    ensures var ts := Split(p + t, ' '); ts[|ts| - 1] == t
  {
    if p == "" {
      assert p + t == t;
      SplitNoSeparator(t, ' ');
    } else {
      var q := p[..|p| - 1];
      assert p + t == q + [' '] + t;
      SplitConcat(q, t, ' ');
      SplitNoSeparator(t, ' ');
    }
  }

  /** The groups of a match, given where the stem ends and what follows the separator. */
  lemma ParseAt(s: string, i: nat, stem: string, tagList: string, ext: Option<string>)
    requires FirstBoundary(s, 1) == Some(i) && s[..i] == stem
    requires TagListAndExtension(s[i + 4..]) == (tagList, ext)
    ensures Parse(s) == Some(TaggedName(stem, tagList, ext))
  {
  }

  /**
   * A name with a separator somewhere before its last space-separated word
   * `t` (and an optional extension after it) carries `t` as a tag.
   */
  lemma TagInTail(s: string, x: string, t: string, ext: Option<string>, i: nat)
    requires s == x + t + ExtensionSuffix(ext)
    requires |x| >= 1 && x[|x| - 1] == ' '
    requires 1 <= i && i + 4 <= |x| && SeparatorAt(s, i)
    requires ValidTag(t) && ValidExt(ext)
    ensures Parse(s).Some? && t in TagsOf(s)
  {
    assert BoundaryAt(s, i);
    var j := FirstBoundary(s, 1).value;
    var p := x[j + 4..];
    assert j <= i;
    TailAfter(s, x, t, ExtensionSuffix(ext), j + 4);
    LastTagAfterBoundary(s, j, p, t, ext);
  }

  /** What follows position `k` of the front part, then the rest, and whether that ends in a space. */
  lemma TailAfter(s: string, x: string, t: string, e: string, k: nat)
    requires s == x + t + e && k <= |x|
    requires x != "" && x[|x| - 1] == ' '
    ensures s[k..] == x[k..] + t + e
    ensures x[k..] == "" || x[k..][|x[k..]| - 1] == ' '
  {
    assert s == x[..k] + (x[k..] + t + e);
  }

  /** A name whose text after the first separator ends in the word `t` (and an optional extension) carries `t`. */
  lemma LastTagAfterBoundary(s: string, j: nat, p: string, t: string, ext: Option<string>)
    requires FirstBoundary(s, 1) == Some(j)
    requires s[j + 4..] == p + t + ExtensionSuffix(ext) && (p == "" || p[|p| - 1] == ' ')
    requires ValidTag(t) && ValidExt(ext)
    ensures Parse(s).Some? && t in TagsOf(s)
  {
    TailTagList(p, t, ext);
    ParseAt(s, j, s[..j], p + t, ext);
    SplitLast(p, t);
    var ts := Split(p + t, ' ');
    assert ts[|ts| - 1] in ts;
  }

  lemma RenderNoSlash(n: Name)
    requires Shaped(n)
    ensures '/' !in Render(n)
  {
    ExtensionSuffixChars(n.ext);
    ValidTagsJoin(n.tags);
    assert '/' !in ExtensionSuffix(n.ext) by {
      forall k | 0 <= k < |ExtensionSuffix(n.ext)| ensures ExtensionSuffix(n.ext)[k] != '/' {
      }
    }
  }

  /** An untagged shaped name does not match the tag regex. */
  lemma {:induction false} ParseUntagged(n: Name)
    requires Shaped(n) && n.tags == []
    ensures Parse(Render(n)) == None
  {
    var s := Render(n);
    var e := ExtensionSuffix(n.ext);
    assert s == n.stem + e;
    ExtensionSuffixChars(n.ext);
    NoSeparatorInStem(s, n.stem);
    forall j | 1 <= j ensures !BoundaryAt(s, j) {
      if |n.stem| <= j < |s| - 1 {
        assert s[j + 1] == e[j + 1 - |n.stem|];
        assert s[j + 1] != '-';
      }
    }
  }

  /** A tagged shaped name parses into its stem, its joined tags and its extension. */
  lemma ParseRender(n: Name)
    requires Shaped(n) && n.tags != []
    ensures Parse(Render(n)) == Some(TaggedName(n.stem, Join(n.tags, ' '), n.ext))
    ensures TagsOf(Render(n)) == n.tags
  {
    ParseJoined(Render(n), n.stem, n.tags, n.ext);
  }

  /** The parse of a stem without `--`, the separator, tags joined by spaces and an extension. */
  lemma ParseJoined(s: string, stem: string, tags: seq<string>, ext: Option<string>)
    requires |stem| >= 1 && NoDoubleDash(stem) && tags != [] && ValidTags(tags) && ValidExt(ext)
    requires s == stem + Separator + Join(tags, ' ') + ExtensionSuffix(ext)
    ensures Parse(s) == Some(TaggedName(stem, Join(tags, ' '), ext))
    ensures TagsOf(s) == tags
  {
    JoinedTagList(tags, ext);
    ParseAfterStem(s, stem, Join(tags, ' '), ext);
  }

  /** The parse of a stem without `--`, the separator and a text read as a tag list and an extension. */
  lemma ParseAfterStem(s: string, stem: string, tl: string, ext: Option<string>)
    requires |stem| >= 1 && NoDoubleDash(stem) && tl != ""
    requires s == stem + Separator + tl + ExtensionSuffix(ext)
    requires TagListAndExtension(tl + ExtensionSuffix(ext)) == (tl, ext)
    ensures Parse(s) == Some(TaggedName(stem, tl, ext))
  {
    StemBoundary(s, stem, tl, ExtensionSuffix(ext));
    ParseAt(s, |stem|, stem, tl, ext);
  }

  /** Tags joined by spaces, then an extension, read back as that tag list and that extension. */
  lemma JoinedTagList(tags: seq<string>, ext: Option<string>)
    requires tags != [] && ValidTags(tags) && ValidExt(ext)
    ensures Join(tags, ' ') != ""
    ensures TagListAndExtension(Join(tags, ' ') + ExtensionSuffix(ext)) == (Join(tags, ' '), ext)
    ensures Split(Join(tags, ' '), ' ') == tags
  {
    JoinNonEmpty(tags, ' ');
    var p := JoinLast(tags);
    TailTagList(p, tags[|tags| - 1], ext);
    SplitJoin(tags, ' ');
  }

  /** The first separator of a name whose stem has no `--` is the one right after the stem. */
  lemma StemBoundary(s: string, stem: string, t: string, e: string)
    requires s == stem + Separator + t + e && |stem| >= 1 && NoDoubleDash(stem) && t != ""
    ensures FirstBoundary(s, 1) == Some(|stem|) && s[..|stem|] == stem && s[|stem| + 4..] == t + e
  {
    assert s[..|stem|] == stem;
    NoSeparatorInStem(s, stem);
    assert BoundaryAt(s, |stem|);
    assert s[|stem| + 4..] == t + e;
  }

  /** The joined tags are the text up to the last tag, ending in a space unless empty, then the last tag. */
  lemma JoinLast(ts: seq<string>) returns (p: string)
    requires ts != []
    ensures Join(ts, ' ') == p + ts[|ts| - 1] && (p == "" || p[|p| - 1] == ' ')
  {
    var last := ts[|ts| - 1];
    var front := ts[..|ts| - 1];
    if front == [] {
      p := "";
      assert ts == [last];
    } else {
      p := Join(front, ' ') + " ";
      assert ts == front + [last];
      JoinAppend(front, last, ' ');
    }
  }

  /** A shaped name matches the tag regex exactly when it has tags. */
  lemma IsTaggedRender(n: Name)
    requires Shaped(n)
    ensures IsTagged(Render(n)) <==> n.tags != []
  {
    if n.tags == [] {
      ParseUntagged(n);
    } else {
      ParseRender(n);
    }
  }

  /** The tag test on a shaped base name: membership in its tags, or being tagged at all. */
  lemma HasTagRender(n: Name, t: string)
    requires Shaped(n)
    ensures HasTag(Render(n), t) <==> if t == "" then n.tags != [] else t in n.tags
    ensures ContainsTag(Render(n), t) <==> HasTag(Render(n), t)
  {
    RenderNoSlash(n);
    if n.tags == [] {
      ParseUntagged(n);
    } else {
      ParseRender(n);
    }
  }

  /** `contains_tag` on a shaped name, in any directory: membership in its tags, or being tagged at all. */
  lemma ContainsTagRender(d: string, n: Name, t: string)
    requires Shaped(n)
    ensures ContainsTag(JoinPath(d, Render(n)), t) <==> if t == "" then n.tags != [] else t in n.tags
  {
    RenderNoSlash(n);
    BaseNameJoinPath(d, Render(n));
    HasTagRender(n, t);
  }

  /** `extract_tags_from_filename` on a shaped name, in any directory, gives its tags back. */
  lemma ExtractTagsRender(d: string, n: Name)
    requires Shaped(n)
    ensures ExtractTags(JoinPath(d, Render(n))) == n.tags
  {
    RenderNoSlash(n);
    BaseNameJoinPath(d, Render(n));
    if n.tags == [] {
      ParseUntagged(n);
    } else {
      ParseRender(n);
    }
  }

  lemma JpegIsAnExtension()
    ensures ValidExt(Some("jpeg"))
  {
    assert IsWordChar('j') && IsWordChar('p') && IsWordChar('e') && IsWordChar('g');
  }

  /** A shaped name, once rendered, has its own tags and no slash. */
  lemma TagsOfRender(n: Name, s: string)
    requires Shaped(n) && Render(n) == s
    ensures TagsOf(s) == n.tags && '/' !in s
  {
    RenderNoSlash(n);
    if n.tags == [] {
      ParseUntagged(n);
    } else {
      ParseRender(n);
    }
  }

  /** The example of the `contains_tag` documentation: both words after the separator are tags. */
  lemma ContainsTagExampleTwoTags(s: string)
    requires s == "Some file -- foo bar.jpeg"
    ensures ContainsTag(s, "foo") && ContainsTag(s, "bar")
    ensures !ContainsTag(s, "foo bar")
  {
    TwoTagsOf(s);
  }

  lemma TwoTagsOf(s: string)
    requires s == "Some file -- foo bar.jpeg"
    ensures TagsOf(s) == ["foo", "bar"] && '/' !in s
  {
    var a := Name("Some file", ["foo", "bar"], Some("jpeg"));
    ExampleWellFormed(a);
    TwoTagsRender(a);
    TagsOfRender(a, s);
  }

  lemma TwoTagsRender(a: Name)
    requires a == Name("Some file", ["foo", "bar"], Some("jpeg"))
    ensures Render(a) == "Some file -- foo bar.jpeg"
  {
    assert Join(["foo", "bar"], ' ') == "foo bar";
  }

  /** The names of the `contains_tag` examples are well-formed. */
  lemma ExampleWellFormed(a: Name)
    requires a.stem == "Some file" && a.ext == Some("jpeg")
    requires a.tags == ["foo", "bar"] || a.tags == ["foobar"]
    ensures WellFormed(a)
  {
    JpegIsAnExtension();
    assert NoDoubleDash(a.stem);
    assert ValidTags(a.tags);
  }

  /** The counterpart of the `contains_tag` documentation: a tag is a whole word, not a part of one. */
  lemma ContainsTagExampleOneTag(s: string)
    requires s == "Some file -- foobar.jpeg"
    ensures !ContainsTag(s, "foo") && ContainsTag(s, "foobar")
  {
    OneTagOf(s);
  }

  lemma OneTagOf(s: string)
    requires s == "Some file -- foobar.jpeg"
    ensures TagsOf(s) == ["foobar"] && '/' !in s
  {
    var b := Name("Some file", ["foobar"], Some("jpeg"));
    ExampleWellFormed(b);
    OneTagRender(b);
    TagsOfRender(b, s);
  }

  lemma OneTagRender(b: Name)
    requires b == Name("Some file", ["foobar"], Some("jpeg"))
    ensures Render(b) == "Some file -- foobar.jpeg"
  {
    assert Join(["foobar"], ' ') == "foobar";
  }

  // ---------------------------------------------------------------------
  // Adding and removing tags on well-formed names

  lemma SplitAtLastDotIs(s: string, b: string, e: string)
    requires s == b + "." + e && '.' !in e
    ensures SplitAtLastDot(s) == Some((b, e))
  {
    assert s[|b| + 1..] == e;
    LastIndexOfIs(s, '.', |b|);
    assert s[..|b|] == b;
  }

  /** Where the last dot of a shaped name is. */
  lemma SplitAtLastDotRender(n: Name)
    requires Shaped(n)
    ensures n.ext.Some? ==> SplitAtLastDot(Render(n)) == Some((Render(n.(ext := None)), n.ext.value))
    ensures n.ext.None? ==> SplitAtLastDot(Render(n)) == None
  {
    ExtensionSuffixChars(n.ext);
    ValidTagsJoin(n.tags);
    var front := Render(n.(ext := None));
    if n.ext.Some? {
      var e := n.ext.value;
      assert ExtensionSuffix(n.ext)[1..] == e;
      assert Render(n) == front + "." + e;
      SplitAtLastDotIs(Render(n), front, e);
    } else {
      assert Render(n) == front;
      assert '.' !in front;
    }
  }

  /** A name with one more tag, written out. */
  lemma RenderAppend(n: Name, t: string)
    ensures n.tags == [] ==> Render(n.(tags := n.tags + [t])) == n.stem + Separator + t + ExtensionSuffix(n.ext)
    ensures n.tags != [] ==> Render(n.(tags := n.tags + [t])) == Render(n.(ext := None)) + " " + t + ExtensionSuffix(n.ext)
  {
    var m := n.(tags := n.tags + [t]);
    if n.tags == [] {
      assert m.tags == [t];
      assert Join(m.tags, ' ') == t;
    } else {
      JoinAppend(n.tags, t, ' ');
      assert Join(m.tags, ' ') == Join(n.tags, ' ') + " " + t;
    }
  }

  /** The base name `adding_tag_to_filename` builds for a well-formed name: the tag becomes the last one. */
  lemma InsertTagRender(n: Name, t: string)
    requires WellFormed(n) && ValidTag(t) && t !in n.tags
    ensures InsertTag(Render(n), t) == Render(n.(tags := n.tags + [t]))
  {
    var sep := if n.tags == [] then Separator else " ";
    assert InsertTag(Render(n), t) == Render(n.(ext := None)) + sep + t + ExtensionSuffix(n.ext) by {
      InsertTagShape(n, t);
    }
    RenderAppendShape(n, t);
  }

  /** A name with one more tag, written out from the name without its extension. */
  lemma RenderAppendShape(n: Name, t: string)
    ensures Render(n.(tags := n.tags + [t]))
      == Render(n.(ext := None)) + (if n.tags == [] then Separator else " ") + t + ExtensionSuffix(n.ext)
  {
    RenderAppend(n, t);
    if n.tags == [] {
      assert Render(n.(ext := None)) == n.stem;
    }
  }

  /** The base name `adding_tag_to_filename` builds for a shaped name, in terms of its parts. */
  lemma InsertTagShape(n: Name, t: string)
    requires Shaped(n)
    ensures InsertTag(Render(n), t) == Render(n.(ext := None)) + (if n.tags == [] then Separator else " ") + t + ExtensionSuffix(n.ext)
  {
    var front := Render(n.(ext := None));
    var sep := if n.tags == [] then Separator else " ";
    assert IsTagged(Render(n)) <==> n.tags != [] by {
      IsTaggedRender(n);
    }
    SplitAtLastDotRender(n);
    InsertTagParts(Render(n), t, front, sep, n.ext);
  }

  lemma InsertTagParts(s: string, t: string, front: string, sep: string, ext: Option<string>)
    requires sep == if IsTagged(s) then " " else Separator
    requires ext.Some? ==> SplitAtLastDot(s) == Some((front, ext.value))
    requires ext.None? ==> SplitAtLastDot(s) == None && s == front
    ensures InsertTag(s, t) == front + sep + t + ExtensionSuffix(ext)
  {
    assert InsertTag(s, t) == InsertWithSeparator(s, sep, t);
    InsertWithParts(s, t, front, sep, ext);
  }

  lemma InsertWithParts(s: string, t: string, front: string, sep: string, ext: Option<string>)
    requires ext.Some? ==> SplitAtLastDot(s) == Some((front, ext.value))
    requires ext.None? ==> SplitAtLastDot(s) == None && s == front
    ensures InsertWithSeparator(s, sep, t) == front + sep + t + ExtensionSuffix(ext)
  {
    if ext.Some? {
      assert InsertWithSeparator(s, sep, t) == front + sep + t + "." + ext.value;
      DotSuffix(front + sep + t, ext.value);
    }
  }

  lemma DotSuffix(a: string, e: string)
    ensures a + "." + e == a + ExtensionSuffix(Some(e))
  {
  }

  /** The corrected base name for a well-formed name is the same. */
  lemma InsertTagCorrectedRender(n: Name, t: string)
    requires WellFormed(n) && ValidTag(t) && t !in n.tags
    ensures InsertTagCorrected(Render(n), t) == Render(n.(tags := n.tags + [t]))
  {
    RenderAppend(n, t);
    if n.tags == [] {
      ParseUntagged(n);
      TagListAndExtensionOf(n.stem, n.ext);
    } else {
      ParseRender(n);
      assert Render(n.(ext := None)) == n.stem + Separator + Join(n.tags, ' ');
    }
  }

  /**
   * `adding_tag_to_filename` on a well-formed name: unchanged when the tag is
   * there, otherwise the tag becomes the last one and the directory is kept.
   */
  lemma AddTagEffect(path: string, n: Name, t: string)
    requires BaseName(path) == Render(n) && WellFormed(n) && ValidTag(t)
    ensures AddTag(path, t) == if t in n.tags then path else JoinPath(DirName(path), Render(n.(tags := n.tags + [t])))
  {
    HasTagRender(n, "");
    HasTagRender(n, t);
    if t !in n.tags {
      InsertTagRender(n, t);
    }
  }

  /** The corrected add agrees with the written one on well-formed names. */
  lemma AddTagCorrectedAgrees(path: string, n: Name, t: string)
    requires BaseName(path) == Render(n) && WellFormed(n) && ValidTag(t)
    ensures AddTagCorrected(path, t) == AddTag(path, t)
  {
    HasTagRender(n, "");
    HasTagRender(n, t);
    if t !in n.tags {
      InsertTagRender(n, t);
      InsertTagCorrectedRender(n, t);
    }
  }

  /** `removing_tag_from_filename` on a tagged shaped base name that carries the tag. */
  lemma RemoveTagPresent(n: Name, t: string)
    requires Shaped(n) && t in n.tags
    ensures RemoveTag(Render(n), t) == if |n.tags| < 2 then n.stem + ExtensionSuffix(n.ext)
      else n.stem + Separator + Join(Without(n.tags, t), ' ') + ExtensionSuffix(n.ext)
  {
    RenderNoSlash(n);
    HasTagRender(n, t);
    ParseRender(n);
  }

  /**
   * Whether removing `t` from two or more tags leaves none: they are all
   * copies of `t`. `removing_tag_from_filename` decides on the number of
   * tags before the removal, so it keeps the separator in this case.
   */
  predicate EmptiedByRemoval(tags: seq<string>, t: string) {
    t in tags && |tags| >= 2 && Without(tags, t) == []
  }

  /**
   * `removing_tag_from_filename` on a shaped base name, as written: every
   * occurrence of the tag is dropped and the other tags keep their order,
   * and with no tag left the separator goes too, except when the name
   * carried nothing but two or more copies of the tag: then an empty tag
   * list stays behind the separator.
   */
  lemma RemoveTagShaped(n: Name, t: string)
    requires Shaped(n) && t != ""
    ensures RemoveTag(Render(n), t) == if EmptiedByRemoval(n.tags, t) then n.stem + Separator + ExtensionSuffix(n.ext)
      else Render(n.(tags := Without(n.tags, t)))
  {
    if t !in n.tags {
      RemoveTagAbsent(n, t);
      WithoutAbsent(n.tags, t);
    } else {
      RemoveTagPresent(n, t);
      RenderWithout(n, t);
    }
  }

  /** Removing a tag a shaped name does not carry leaves it alone. */
  lemma RemoveTagAbsent(n: Name, t: string)
    requires Shaped(n) && t != "" && t !in n.tags
    ensures RemoveTag(Render(n), t) == Render(n)
  {
    RenderNoSlash(n);
    HasTagRender(n, t);
  }

  /** The text left by dropping a tag a name carries, written out from the name without it. */
  lemma RenderWithout(n: Name, t: string)
    requires t in n.tags
    ensures (if |n.tags| < 2 then n.stem + ExtensionSuffix(n.ext)
      else n.stem + Separator + Join(Without(n.tags, t), ' ') + ExtensionSuffix(n.ext))
      == if EmptiedByRemoval(n.tags, t) then n.stem + Separator + ExtensionSuffix(n.ext)
      else Render(n.(tags := Without(n.tags, t)))
  {
    if |n.tags| < 2 {
      assert n.tags == [t];
      assert Without(n.tags, t) == Without(n.tags[1..], t);
    }
  }

  /**
   * `removing_tag_from_filename` on a well-formed base name: every
   * occurrence of the tag is dropped and the other tags keep their order;
   * with no tag left the separator goes too.
   */
  lemma RemoveTagEffect(n: Name, t: string)
    requires WellFormed(n) && t != ""
    ensures RemoveTag(Render(n), t) == Render(n.(tags := Without(n.tags, t)))
  {
    RemoveTagShaped(n, t);
    if t in n.tags {
      WithoutEmpty(n.tags, t);
    }
  }

  /** The corrected removal on a shaped base name: every occurrence goes, and with no tag left the separator too. */
  lemma RemoveTagCorrectedEffect(n: Name, t: string)
    requires Shaped(n) && t != ""
    ensures RemoveTagCorrected(Render(n), t) == Render(n.(tags := Without(n.tags, t)))
  {
    if t !in n.tags {
      RemoveTagCorrectedAbsent(n, t);
      WithoutAbsent(n.tags, t);
    } else {
      RemoveTagCorrectedPresent(n, t);
      RenderWithoutCorrected(n, t);
    }
  }

  lemma RemoveTagCorrectedAbsent(n: Name, t: string)
    requires Shaped(n) && t != "" && t !in n.tags
    ensures RemoveTagCorrected(Render(n), t) == Render(n)
  {
    RenderNoSlash(n);
    HasTagRender(n, t);
  }

  lemma RemoveTagCorrectedPresent(n: Name, t: string)
    requires Shaped(n) && t in n.tags
    ensures RemoveTagCorrected(Render(n), t) == if |n.tags| < 2 || Without(n.tags, t) == [] then n.stem + ExtensionSuffix(n.ext)
      else n.stem + Separator + Join(Without(n.tags, t), ' ') + ExtensionSuffix(n.ext)
  {
    RenderNoSlash(n);
    HasTagRender(n, t);
    ParseRender(n);
  }

  lemma RenderWithoutCorrected(n: Name, t: string)
    requires t in n.tags
    ensures (if |n.tags| < 2 || Without(n.tags, t) == [] then n.stem + ExtensionSuffix(n.ext)
      else n.stem + Separator + Join(Without(n.tags, t), ' ') + ExtensionSuffix(n.ext))
      == Render(n.(tags := Without(n.tags, t)))
  {
    if |n.tags| < 2 {
      assert n.tags == [t];
      assert Without(n.tags, t) == Without(n.tags[1..], t);
    }
  }

  /** The two removals differ only where the one as written keeps a separator with no tag behind it. */
  lemma RemoveTagCorrectedDiffers(filename: string, t: string)
    ensures RemoveTagCorrected(filename, t) != RemoveTag(filename, t)
      <==> ContainsTag(filename, t) && Parse(filename).Some? && EmptiedByRemoval(TagsOf(filename), t)
  {
    if ContainsTag(filename, t) && Parse(filename).Some? {
      var tags := TagsOf(filename);
      if |tags| >= 2 && Without(tags, t) == [] {
        assert tags[0] !in Without(tags, t);
        assert t in tags;
      }
    }
  }

  /** On well-formed names, whose tags are distinct, the corrected removal is the removal as written. */
  lemma RemoveTagCorrectedAgrees(n: Name, t: string)
    requires WellFormed(n)
    ensures RemoveTagCorrected(Render(n), t) == RemoveTag(Render(n), t)
  {
    RemoveTagCorrectedDiffers(Render(n), t);
    if Parse(Render(n)).Some? {
      IsTaggedRender(n);
      ParseRender(n);
      if t in n.tags {
        WithoutEmpty(n.tags, t);
      }
    }
  }

  /** `a -- x x.txt`: the stem `a`, the tag `x` twice and the extension `txt`. */
  lemma RepeatedTagName(s: string)
    requires s == "a -- x x.txt"
    ensures Shaped(Name("a", ["x", "x"], Some("txt"))) && Render(Name("a", ["x", "x"], Some("txt"))) == s
    ensures EmptiedByRemoval(["x", "x"], "x")
    ensures "a" + Separator + ExtensionSuffix(Some("txt")) == "a -- .txt"
    ensures Render(Name("a", [], Some("txt"))) == "a.txt" && Shaped(Name("a", [], Some("txt")))
  {
    var n := Name("a", ["x", "x"], Some("txt"));
    assert IsWordChar('t') && IsWordChar('x');
    assert ValidExt(n.ext);
    assert ValidTag("x");
    assert NoDoubleDash(n.stem);
    assert Join(["x", "x"], ' ') == "x x" by {
      assert ["x", "x"][1..] == ["x"];
    }
    assert Without(["x", "x"], "x") == [] by {
      assert ["x", "x"][1..] == ["x"] && ["x"][1..] == [];
    }
  }

  /** `a -- .txt` matches with the tag list `.txt` and no extension. */
  lemma EmptyTagListRead(r: string)
    requires r == "a -- .txt"
    ensures Parse(r) == Some(TaggedName("a", ".txt", None)) && TagsOf(r) == [".txt"]
  {
    assert BoundaryAt(r, 1);
    assert FirstBoundary(r, 1) == Some(1);
    var rest := r[5..];
    assert rest == ".txt" && r[..1] == "a";
    LastIndexOfIs(rest, '.', 0);
    assert TagListAndExtension(rest) == (rest, None);
    assert forall k :: 0 <= k < |rest| ==> rest[k] != ' ';
    SplitNoSeparator(rest, ' ');
  }

  /** Removing a tag from a shaped name that carries nothing but copies of it, as written. */
  lemma RemoveAllCopies(n: Name, t: string, s: string, r: string)
    requires Shaped(n) && t != "" && EmptiedByRemoval(n.tags, t)
    requires Render(n) == s && n.stem + Separator + ExtensionSuffix(n.ext) == r
    ensures RemoveTag(s, t) == r
  {
    RemoveTagShaped(n, t);
  }

  /** The corrected removal on a shaped name, given its rendering and the rendering without the tag. */
  lemma RemoveCorrectedRendered(n: Name, t: string, s: string, r: string)
    requires Shaped(n) && t != ""
    requires Render(n) == s && Render(n.(tags := Without(n.tags, t))) == r
    ensures RemoveTagCorrected(s, t) == r
  {
    RemoveTagCorrectedEffect(n, t);
  }

  /**
   * The finding on removal, as written: `a -- x x.txt` without `x` becomes
   * `a -- .txt`, which the regex reads as tagged with `.txt` and without an
   * extension.
   */
  lemma RemoveRepeatedSoleTag(s: string, x: string)
    requires s == "a -- x x.txt" && x == "x"
    ensures RemoveTag(s, x) == "a -- .txt"
    ensures Parse(RemoveTag(s, x)) == Some(TaggedName("a", ".txt", None)) && TagsOf(RemoveTag(s, x)) == [".txt"]
  {
    RepeatedTagName(s);
    RemoveAllCopies(Name("a", ["x", "x"], Some("txt")), x, s, "a -- .txt");
    EmptyTagListRead("a -- .txt");
  }

  /** The corrected removal turns `a -- x x.txt` without `x` into the untagged `a.txt`. */
  lemma RemoveRepeatedSoleTagCorrected(s: string, x: string)
    requires s == "a -- x x.txt" && x == "x"
    ensures RemoveTagCorrected(s, x) == "a.txt" && !IsTagged(RemoveTagCorrected(s, x))
  {
    RepeatedTagName(s);
    var m := Name("a", [], Some("txt"));
    RemoveCorrectedRendered(Name("a", ["x", "x"], Some("txt")), x, s, "a.txt");
    ParseUntagged(m);
  }

  /** Removing the empty tag drops a sole tag and leaves every other name alone. */
  lemma RemoveEmptyTag(n: Name)
    requires Shaped(n)
    ensures RemoveTag(Render(n), "") == if |n.tags| == 1 then Render(n.(tags := [])) else Render(n)
  {
    RenderNoSlash(n);
    HasTagRender(n, "");
    if n.tags != [] {
      ParseRender(n);
      assert "" !in n.tags by {
        forall k | 0 <= k < |n.tags| ensures n.tags[k] != "" {
          assert ValidTag(n.tags[k]);
        }
      }
      WithoutAbsent(n.tags, "");
    }
  }

  lemma WellFormedWithout(n: Name, t: string)
    requires WellFormed(n)
    ensures WellFormed(n.(tags := Without(n.tags, t)))
  {
    WithoutDistinct(n.tags, t);
    var r := Without(n.tags, t);
    forall k | 0 <= k < |r| ensures ValidTag(r[k]) {
      assert r[k] in n.tags;
    }
  }

  lemma WellFormedAppend(n: Name, t: string)
    requires WellFormed(n) && ValidTag(t) && t !in n.tags
    ensures WellFormed(n.(tags := n.tags + [t]))
  {
    var r := n.tags + [t];
    forall i, j | 0 <= i < j < |r| ensures r[i] != r[j] {
      if j == |n.tags| {
        assert r[i] in n.tags;
      }
    }
  }

  /** Removing a tag just added gives the name back. */
  lemma RemoveAfterAdd(n: Name, t: string)
    requires WellFormed(n) && ValidTag(t) && t !in n.tags
    ensures RemoveTag(AddTag(Render(n), t), t) == Render(n)
  {
    AddTagBase(n, t);
    RemoveAppended(n, t);
  }

  /** `adding_tag_to_filename` on a well-formed base name without the tag appends it. */
  lemma AddTagBase(n: Name, t: string)
    requires WellFormed(n) && ValidTag(t) && t !in n.tags
    ensures AddTag(Render(n), t) == Render(n.(tags := n.tags + [t]))
  {
    RenderNoSlash(n);
    AddTagEffect(Render(n), n, t);
  }

  /** Removing the last tag, when it occurs nowhere else, gives the name without it. */
  lemma RemoveAppended(n: Name, t: string)
    requires WellFormed(n) && ValidTag(t) && t !in n.tags
    ensures RemoveTag(Render(n.(tags := n.tags + [t])), t) == Render(n)
  {
    var m := n.(tags := n.tags + [t]);
    assert Without(m.tags, t) == n.tags by {
      WithoutConcat(n.tags, [t], t);
      WithoutAbsent(n.tags, t);
      assert Without([t], t) == [];
    }
    WellFormedAppend(n, t);
    RemoveTagEffect(m, t);
    assert m.(tags := n.tags) == n;
  }

  /** Adding a tag twice is adding it once. */
  lemma AddTagIdempotent(path: string, n: Name, t: string)
    requires BaseName(path) == Render(n) && WellFormed(n) && ValidTag(t)
    ensures AddTag(AddTag(path, t), t) == AddTag(path, t)
  {
    AddTagEffect(path, n, t);
    if t !in n.tags {
      var m := n.(tags := n.tags + [t]);
      WellFormedAppend(n, t);
      RenderNoSlash(m);
      JoinPathSplits(path, Render(m));
      AddTagEffect(AddTag(path, t), m, t);
    }
  }

  /** Removing a tag twice is removing it once. */
  lemma RemoveTagIdempotent(n: Name, t: string)
    requires WellFormed(n) && t != ""
    ensures RemoveTag(RemoveTag(Render(n), t), t) == RemoveTag(Render(n), t)
  {
    RemoveTagEffect(n, t);
    WellFormedWithout(n, t);
    var m := n.(tags := Without(n.tags, t));
    RemoveTagEffect(m, t);
    WithoutAbsent(m.tags, t);
  }

  /** Removing two tags gives the same name in either order. */
  lemma RemoveTagCommutes(n: Name, a: string, b: string)
    requires WellFormed(n) && a != "" && b != ""
    ensures RemoveTag(RemoveTag(Render(n), a), b) == RemoveTag(RemoveTag(Render(n), b), a)
  {
    var ra := Without(n.tags, a);
    var rb := Without(n.tags, b);
    assert RemoveTag(RemoveTag(Render(n), a), b) == Render(n.(tags := Without(ra, b))) by {
      RemoveTagEffect(n, a);
      WellFormedWithout(n, a);
      RemoveTagEffect(n.(tags := ra), b);
    }
    assert RemoveTag(RemoveTag(Render(n), b), a) == Render(n.(tags := Without(rb, a))) by {
      RemoveTagEffect(n, b);
      WellFormedWithout(n, b);
      RemoveTagEffect(n.(tags := rb), a);
    }
    WithoutCommutes(n.tags, a, b);
  }

  // ---------------------------------------------------------------------
  // The misplaced tag of `adding_tag_to_filename`

  /**
   * `adding_tag_to_filename` on any untagged base name that has a dot,
   * well formed or not. This is `AddTag` unfolded under its guards; the
   * findings below apply it to names `AddTagEffect` does not cover.
   */
  lemma AddTagUntaggedDotted(s: string, t: string, b: string, e: string)
    requires '/' !in s && !IsTagged(s) && SplitAtLastDot(s) == Some((b, e))
    ensures AddTag(s, t) == b + Separator + t + "." + e
  {
  }

  /**
   * `adding_tag_to_filename` on any tagged base name that has a dot and lacks
   * the tag, well formed or not; like the lemma above, `AddTag` unfolded
   * under its guards.
   */
  lemma AddTagTaggedDotted(s: string, t: string, b: string, e: string)
    requires '/' !in s && IsTagged(s) && !HasTag(s, t) && SplitAtLastDot(s) == Some((b, e))
    ensures AddTag(s, t) == b + " " + t + "." + e
  {
  }

  lemma MisplacedUntagged(s: string)
    requires s == "a.b-c"
    ensures '/' !in s && !IsTagged(s) && SplitAtLastDot(s) == Some(("a", "b-c"))
  {
    SplitAtLastDotIs(s, "a", "b-c");
  }

  lemma MisplacedTagListAndExtension(rest: string)
    requires rest == "x.b-c"
    ensures TagListAndExtension(rest) == (rest, None)
  {
    LastIndexOfIs(rest, '.', 1);
    assert rest[2..] == "b-c";
    assert !AllWordChars("b-c") by {
      assert "b-c"[1] == '-' && !IsWordChar('-');
    }
  }

  lemma MisplacedParse(r: string)
    requires r == "a -- x.b-c"
    ensures '/' !in r && Parse(r) == Some(TaggedName("a", "x.b-c", None))
  {
    assert BoundaryAt(r, 1);
    assert FirstBoundary(r, 1) == Some(1);
    assert r[5..] == "x.b-c" && r[..1] == "a";
    MisplacedTagListAndExtension(r[5..]);
  }

  lemma MisplacedTags(r: string)
    requires r == "a -- x.b-c"
    ensures '/' !in r && IsTagged(r) && TagsOf(r) == ["x.b-c"]
  {
    MisplacedParse(r);
    MisplacedTagWord();
  }

  lemma MisplacedTagWord()
    ensures Split("x.b-c", ' ') == ["x.b-c"]
  {
    var w := "x.b-c";
    assert forall k :: 0 <= k < |w| ==> w[k] != ' ';
    SplitNoSeparator(w, ' ');
  }

  lemma MisplacedLastDot(r: string)
    requires r == "a -- x.b-c"
    ensures SplitAtLastDot(r) == Some(("a -- x", "b-c"))
  {
    SplitAtLastDotIs(r, "a -- x", "b-c");
  }

  lemma MisplacedTexts()
    ensures "a" + Separator + "x" + "." + "b-c" == "a -- x.b-c"
    ensures "a -- x" + " " + "x" + "." + "b-c" == "a -- x x.b-c"
    ensures "" + Separator + "x" + "." + "bashrc" == " -- x.bashrc"
    ensures "x" != "x.b-c" && "x" !in ["x.b-c"]
  {
  }

  /**
   * As written, a tag added to a name whose text after the last dot is not
   * word characters lands inside the tag list: the result does not carry the
   * tag, and adding it again adds a second copy.
   */
  lemma AddTagMisplacesTag(s: string, x: string)
    requires s == "a.b-c" && x == "x"
    ensures AddTag(s, x) == "a -- x.b-c"
    ensures !ContainsTag(AddTag(s, x), x)
    ensures AddTag(AddTag(s, x), x) == "a -- x x.b-c"
  {
    MisplacedFirstAdd(s, x);
    MisplacedSecondAdd(AddTag(s, x), x);
  }

  lemma MisplacedFirstAdd(s: string, x: string)
    requires s == "a.b-c" && x == "x"
    ensures AddTag(s, x) == "a -- x.b-c"
  {
    MisplacedUntagged(s);
    MisplacedTexts();
    AddTagUntaggedDotted(s, x, "a", "b-c");
  }

  lemma MisplacedSecondAdd(r: string, x: string)
    requires r == "a -- x.b-c" && x == "x"
    ensures !ContainsTag(r, x)
    ensures AddTag(r, x) == "a -- x x.b-c"
  {
    MisplacedTexts();
    MisplacedTags(r);
    LacksTag(r, ["x.b-c"], x);
    MisplacedSecondInsert(r, x);
  }

  lemma MisplacedSecondInsert(r: string, x: string)
    requires r == "a -- x.b-c" && x == "x"
    requires '/' !in r && IsTagged(r) && !HasTag(r, x)
    ensures AddTag(r, x) == "a -- x x.b-c"
  {
    MisplacedLastDot(r);
    AddTagTaggedDotted(r, x, "a -- x", "b-c");
    MisplacedTexts();
  }

  /** A base name whose tags are `ts` does not carry a non-empty tag outside `ts`. */
  lemma LacksTag(r: string, ts: seq<string>, x: string)
    requires '/' !in r && TagsOf(r) == ts && x != "" && x !in ts
    ensures !HasTag(r, x) && !ContainsTag(r, x)
  {
  }

  lemma DotFileUntagged(s: string)
    requires s == ".bashrc"
    ensures '/' !in s && !IsTagged(s) && SplitAtLastDot(s) == Some(("", "bashrc"))
  {
    assert forall j :: 1 <= j ==> !SeparatorAt(s, j);
    SplitAtLastDotIs(s, "", "bashrc");
  }

  lemma DotFileResultUntagged(q: string)
    requires q == " -- x.bashrc"
    ensures '/' !in q && !IsTagged(q)
  {
    assert forall j :: 1 <= j ==> !SeparatorAt(q, j);
  }

  /** As written, a tag added to a dot file opens the name with the separator, and the regex finds no tag. */
  lemma AddTagToDotFileLosesTag(s: string, x: string)
    requires s == ".bashrc" && x == "x"
    ensures AddTag(s, x) == " -- x.bashrc"
    ensures !ContainsTag(AddTag(s, x), x)
  {
    DotFileUntagged(s);
    MisplacedTexts();
    AddTagUntaggedDotted(s, x, "", "bashrc");
    DotFileResultUntagged(AddTag(s, x));
  }

  /** The corrected base name of an untagged name carries the tag. */
  lemma InsertTagCorrectedUntagged(base: string, t: string)
    requires ValidTag(t) && base != "" && Parse(base).None?
    ensures t in TagsOf(InsertTagCorrected(base, t))
  {
    var parts := TagListAndExtension(base);
    var x := parts.0 + Separator;
    assert InsertTagCorrected(base, t) == x + t + ExtensionSuffix(parts.1);
    TagInTail(x + t + ExtensionSuffix(parts.1), x, t, parts.1, |parts.0|);
  }

  /** The corrected base name of a tagged name carries the tag. */
  lemma InsertTagCorrectedTagged(base: string, t: string)
    requires ValidTag(t) && Parse(base).Some?
    ensures t in TagsOf(InsertTagCorrected(base, t))
  {
    var p := Parse(base).value;
    ParseSpec(base);
    var x := p.stem + Separator + p.tagList + " ";
    assert InsertTagCorrected(base, t) == x + t + ExtensionSuffix(p.ext);
    TagInTail(x + t + ExtensionSuffix(p.ext), x, t, p.ext, |p.stem|);
  }

  /** The corrected base name holds no slash when the name and the tag hold none. */
  lemma InsertTagCorrectedNoSlash(base: string, t: string)
    requires '/' !in base && '/' !in t
    ensures '/' !in InsertTagCorrected(base, t)
  {
    if Parse(base).Some? {
      var p := Parse(base).value;
      ParseSpec(base);
      assert base == p.stem + Separator + p.tagList + ExtensionSuffix(p.ext);
      assert '/' !in p.stem && '/' !in p.tagList && '/' !in ExtensionSuffix(p.ext);
    } else if base != "" {
      var parts := TagListAndExtension(base);
      assert '/' !in parts.0 && '/' !in ExtensionSuffix(parts.1);
    }
  }

  /** The corrected add always leaves the tag where the regex reads it, and keeps the directory. */
  lemma AddTagCorrectedContainsTag(filename: string, t: string)
    requires ValidTag(t) && BaseName(filename) != ""
    ensures ContainsTag(AddTagCorrected(filename, t), t)
    ensures DirName(AddTagCorrected(filename, t)) == DirName(filename)
  {
    var base := BaseName(filename);
    if !(ContainsTag(base, "") && ContainsTag(base, t)) {
      var nb := InsertTagCorrected(base, t);
      if Parse(base).Some? {
        InsertTagCorrectedTagged(base, t);
      } else {
        InsertTagCorrectedUntagged(base, t);
      }
      InsertTagCorrectedNoSlash(base, t);
      JoinPathSplits(filename, nb);
    }
  }

  /** The corrected add is idempotent on every name. */
  lemma AddTagCorrectedIdempotent(filename: string, t: string)
    requires ValidTag(t) && BaseName(filename) != ""
    ensures AddTagCorrected(AddTagCorrected(filename, t), t) == AddTagCorrected(filename, t)
  {
    AddTagCorrectedContainsTag(filename, t);
  }

  lemma CorrectedTexts()
    ensures "" + ("a.b-c" + Separator + "x" + "") == "a.b-c -- x"
    ensures "" + (".bashrc" + Separator + "x" + "") == ".bashrc -- x"
  {
  }

  lemma CorrectedMisplaced(s: string, x: string)
    requires s == "a.b-c" && x == "x"
    ensures AddTagCorrected(s, x) == "a.b-c -- x"
  {
    MisplacedUntagged(s);
    LastIndexOfIs(s, '.', 1);
    assert s[2..] == "b-c";
    assert !AllWordChars("b-c") by {
      assert "b-c"[1] == '-' && !IsWordChar('-');
    }
    assert TagListAndExtension(s) == (s, None);
    CorrectedTexts();
  }

  lemma CorrectedDotFile(s: string, x: string)
    requires s == ".bashrc" && x == "x"
    ensures AddTagCorrected(s, x) == ".bashrc -- x"
  {
    DotFileUntagged(s);
    LastIndexOfIs(s, '.', 0);
    assert TagListAndExtension(s) == (s, None);
    CorrectedTexts();
  }

  /** The corrected add on the names that defeat the written one. */
  lemma AddTagCorrectedExamples(s: string, d: string, x: string)
    requires s == "a.b-c" && d == ".bashrc" && x == "x"
    ensures AddTagCorrected(s, x) == "a.b-c -- x"
    ensures AddTagCorrected(d, x) == ".bashrc -- x"
  {
    CorrectedMisplaced(s, x);
    CorrectedDotFile(d, x);
  }
}
