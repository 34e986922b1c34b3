/**
 * The codec of the stand-alone `filetags.py`. It uses the same tag regex as
 * the current package, matched on the whole argument rather than on its
 * base name; removing a tag from a name without an extension builds
 * `u'.' + None`, which raises `TypeError`. The tag loop of its `handle_file`
 * only adds or removes: there is no `-tag` shorthand and no groups of
 * mutually exclusive tags.
 */
module LegacyCodec {
  import opened Wrappers
  import opened Text
  import opened Paths
  import opened Codec
  import opened CodecProps
  import opened Edits

  /**
   * `adding_tag_to_filename(filename, tagname)`: returns the name when it is
   * tagged and carries the tag, otherwise inserts the tag before the last dot.
   * On a name without a slash it is the current codec's add.
   */
  function LegacyAddTag(filename: string, tagname: string): (r: string)
    ensures '/' !in filename ==> r == AddTag(filename, tagname)
  {
    if IsTagged(filename) && HasTag(filename, tagname) then filename else InsertTag(filename, tagname)
  }

  /**
   * `removing_tag_from_filename(filename, tagname)`; `None` is the
   * `TypeError` raised when the tag is present and the name has no extension.
   */
  function LegacyRemoveTag(filename: string, tagname: string): Option<string>
  {
    if !HasTag(filename, tagname) then Some(filename)
    else
      match Parse(filename)
      case None => Some(filename)
      case Some(p) =>
        if p.ext.None? then None
        else
          var tags := Split(p.tagList, ' ');
          var ext := ExtensionSuffix(p.ext);
          if |tags| < 2 then Some(p.stem + ext)
          else Some(p.stem + Separator + Join(Without(tags, tagname), ' ') + ext)
  }

  /** The legacy remove raises exactly when the tag is present and the name has no extension; otherwise, on a name without a slash, it is the current codec's remove. */
  lemma LegacyRemoveTagAgrees(filename: string, tagname: string)
    ensures LegacyRemoveTag(filename, tagname).None? <==>
      HasTag(filename, tagname) && Parse(filename).Some? && Parse(filename).value.ext.None?
    ensures LegacyRemoveTag(filename, tagname).Some? && '/' !in filename ==>
      LegacyRemoveTag(filename, tagname).value == RemoveTag(filename, tagname)
  {
    if '/' !in filename {
      assert BaseName(filename) == filename;
      assert ContainsTag(filename, tagname) == HasTag(filename, tagname);
    }
  }

  /** The extension group of `x/file.txt`. */
  lemma TagListOfPath(rest: string)
    requires rest == "x/file.txt"
    ensures TagListAndExtension(rest) == ("x/file", Some("txt"))
  {
    LastIndexOfIs(rest, '.', 6);
    assert rest[7..] == "txt";
    assert AllWordChars(rest[7..]);
    assert rest[..6] == "x/file";
  }

  /** The first separator of `dir -- x/file.txt` with text after it is at index 3. */
  lemma BoundaryOfPath(s: string)
    requires s == "dir -- x/file.txt"
    ensures FirstBoundary(s, 1) == Some(3) && s[..3] == "dir"
  {
    assert SeparatorAt(s, 3);
    assert FirstBoundary(s, 3) == Some(3);
    assert !SeparatorAt(s, 2) && !SeparatorAt(s, 1);
  }

  /** `file.txt` is not tagged. */
  lemma UntaggedFile(b: string)
    requires b == "file.txt"
    ensures Parse(b) == None
  {
    assert ' ' !in b;
  }

  /** The tag regex sees tags in a directory part: `dir -- x/file.txt` is tagged with `x/file`, its base name is not tagged. */
  lemma WholePathExample(s: string)
    requires s == "dir -- x/file.txt"
    ensures TagsOf(s) == ["x/file"]
    ensures HasTag(s, "x/file") && !ContainsTag(s, "x/file")
    ensures ExtractTags(s) == []
  {
    BoundaryOfPath(s);
    TagListOfPath(s[7..]);
    ParseAt(s, 3, "dir", "x/file", Some("txt"));
    SplitNoSeparator("x/file", ' ');
    BaseNameOfPath(s);
    UntaggedFile("file.txt");
  }

  lemma BaseNameOfPath(s: string)
    requires s == "dir -- x/file.txt"
    ensures BaseName(s) == "file.txt"
  {
    LastIndexOfIs(s, '/', 8);
    assert s[9..] == "file.txt";
  }

  // ---------------------------------------------------------------------
  // Well-formed names

  /** Adding to a well-formed name: unchanged when the tag is there, otherwise it becomes the last tag. */
  lemma LegacyAddTagEffect(n: Name, t: string)
    requires WellFormed(n) && ValidTag(t)
    ensures LegacyAddTag(Render(n), t) == Render(n.(tags := if t in n.tags then n.tags else n.tags + [t]))
  {
    RenderNoSlash(n);
    AddTagEffect(Render(n), n, t);
    assert n.(tags := n.tags) == n;
  }

  /**
   * Removing from a well-formed name: every occurrence of the tag is dropped
   * and the other tags keep their order, except that a name without an
   * extension that carries the tag raises.
   */
  lemma LegacyRemoveTagEffect(n: Name, t: string)
    requires WellFormed(n) && t != ""
    ensures LegacyRemoveTag(Render(n), t) ==
      if t in n.tags && n.ext.None? then None else Some(Render(n.(tags := Without(n.tags, t))))
  {
    RenderNoSlash(n);
    RemoveTagEffect(n, t);
    HasTagRender(n, t);
    if t in n.tags {
      ParseRender(n);
    }
  }

  /** A name with one more tag, and what removing that tag leaves. */
  lemma AppendThenWithout(n: Name, t: string)
    requires WellFormed(n) && ValidTag(t) && t !in n.tags
    ensures WellFormed(n.(tags := n.tags + [t]))
    ensures n.(tags := n.tags + [t]).(tags := Without(n.tags + [t], t)) == n
  {
    WellFormedAppend(n, t);
    WithoutConcat(n.tags, [t], t);
    WithoutAbsent(n.tags, t);
    assert Without([t], t) == [];
  }

  /** Removing a tag just added to a well-formed name with an extension gives the name back. */
  lemma LegacyRemoveAfterAdd(n: Name, t: string)
    requires WellFormed(n) && ValidTag(t) && t !in n.tags && n.ext.Some?
    ensures LegacyRemoveTag(LegacyAddTag(Render(n), t), t) == Some(Render(n))
  {
    LegacyAddTagEffect(n, t);
    AppendThenWithout(n, t);
    LegacyRemoveTagEffect(n.(tags := n.tags + [t]), t);
  }

  /** Removing a tag just added to a well-formed name without an extension raises. */
  lemma LegacyRemoveAfterAddRaises(n: Name, t: string)
    requires WellFormed(n) && ValidTag(t) && t !in n.tags && n.ext.None?
    ensures LegacyRemoveTag(LegacyAddTag(Render(n), t), t) == None
  {
    LegacyAddTagEffect(n, t);
    AppendThenWithout(n, t);
    LegacyRemoveTagEffect(n.(tags := n.tags + [t]), t);
  }

  /** `notes -- x` without `x`: the legacy remove raises where the current one gives `notes`. */
  lemma LegacyRemoveRaisesExample(s: string)
    requires s == "notes -- x"
    ensures LegacyRemoveTag(s, "x") == None
    ensures RemoveTag(s, "x") == "notes"
  {
    var n := Name("notes", ["x"], None);
    assert NoDoubleDash(n.stem);
    assert ValidTag("x");
    assert WellFormed(n);
    assert Join(["x"], ' ') == "x";
    assert Render(n) == s;
    LegacyRemoveTagEffect(n, "x");
    RemoveTagEffect(n, "x");
    assert Without(["x"], "x") == [];
  }

  /** The legacy remove has the same finding: `a -- x x.txt` without `x` becomes `a -- .txt`, tagged `.txt`. */
  lemma LegacyRemoveRepeatedSoleTag(s: string, x: string)
    requires s == "a -- x x.txt" && x == "x"
    ensures LegacyRemoveTag(s, x) == Some("a -- .txt")
    ensures TagsOf(LegacyRemoveTag(s, x).value) == [".txt"]
  {
    RemoveRepeatedSoleTag(s, x);
    RepeatedTagName(s);
    LegacyRemovePlain(Name("a", ["x", "x"], Some("txt")), x, s, "a -- .txt");
  }

  /** On a shaped name with an extension, the legacy remove agrees with the current one. */
  lemma LegacyRemovePlain(n: Name, t: string, s: string, r: string)
    requires Shaped(n) && n.ext.Some? && Render(n) == s && RemoveTag(s, t) == r
    ensures LegacyRemoveTag(s, t) == Some(r)
  {
    RenderNoSlash(n);
    LegacyRemoveTagAgrees(s, t);
    if Parse(s).Some? {
      IsTaggedRender(n);
      ParseRender(n);
    }
  }

  // ---------------------------------------------------------------------
  // The tag loop of handle_file

  /** The new name after the tag loop; `None` once a removal has raised. */
  function LegacyFold(name: string, tags: seq<string>, doRemove: bool): Option<string>
    decreases |tags|
  {
    if tags == [] then Some(name)
    else
      match LegacyFold(name, tags[..|tags| - 1], doRemove)
      case None => None
      case Some(m) =>
        if doRemove then LegacyRemoveTag(m, tags[|tags| - 1]) else Some(LegacyAddTag(m, tags[|tags| - 1]))
  }

  /** What the tag loop does to the list of tags: drop each edit, or add it once at the end. */
  function LegacyEditTags(tags: seq<string>, edits: seq<string>, doRemove: bool): seq<string>
    decreases |edits|
  {
    if edits == [] then tags
    else
      var before := LegacyEditTags(tags, edits[..|edits| - 1], doRemove);
      var e := edits[|edits| - 1];
      if doRemove then Without(before, e) else if e in before then before else before + [e]
  }

  /** Removing the edits one by one drops all of them and keeps the order of the other tags. */
  lemma {:induction false} LegacyEditTagsRemove(tags: seq<string>, edits: seq<string>)
    ensures LegacyEditTags(tags, edits, true) == FilterOut(tags, edits)
    decreases |edits|
  {
    if edits == [] {
      FilterOutNothing(tags);
    } else {
      var front := edits[..|edits| - 1];
      LegacyEditTagsRemove(tags, front);
      WithoutFilterOut(tags, front, edits[|edits| - 1]);
      assert front + [edits[|edits| - 1]] == edits;
    }
  }

  /** The edits the lemmas about the loop use: tags to add must be valid, tags to remove non-empty. */
  predicate LegacyEditsOk(edits: seq<string>, doRemove: bool) {
    forall k :: 0 <= k < |edits| ==> if doRemove then edits[k] != "" else ValidTag(edits[k])
  }

  lemma LegacyEditsOkPrefix(edits: seq<string>, doRemove: bool, i: nat)
    requires LegacyEditsOk(edits, doRemove) && i <= |edits|
    ensures LegacyEditsOk(edits[..i], doRemove)
  {
    forall k | 0 <= k < i ensures edits[..i][k] == edits[k] {
    }
  }

  /**
   * On a well-formed name the loop edits the tag list; removals need an
   * extension, since a removal that finds its tag raises without one.
   */
  lemma {:induction false} LegacyFoldRender(n: Name, edits: seq<string>, doRemove: bool)
    requires WellFormed(n) && LegacyEditsOk(edits, doRemove) && (doRemove ==> n.ext.Some?)
    ensures LegacyFold(Render(n), edits, doRemove) == Some(Render(n.(tags := LegacyEditTags(n.tags, edits, doRemove))))
    ensures WellFormed(n.(tags := LegacyEditTags(n.tags, edits, doRemove)))
    decreases |edits|
  {
    if edits == [] {
      assert n.(tags := n.tags) == n;
    } else {
      var front := edits[..|edits| - 1];
      var e := edits[|edits| - 1];
      LegacyEditsOkPrefix(edits, doRemove, |edits| - 1);
      LegacyFoldRender(n, front, doRemove);
      var m := n.(tags := LegacyEditTags(n.tags, front, doRemove));
      if doRemove {
        LegacyRemoveTagEffect(m, e);
        WellFormedWithout(m, e);
      } else {
        LegacyAddTagEffect(m, e);
        if e !in m.tags {
          WellFormedAppend(m, e);
        } else {
          assert m.(tags := m.tags) == m;
        }
      }
    }
  }

  /** Removing tags a well-formed name does not carry leaves it alone. */
  lemma {:induction false} LegacyFoldAbsent(n: Name, edits: seq<string>)
    requires WellFormed(n) && LegacyEditsOk(edits, true)
    requires forall k :: 0 <= k < |edits| ==> edits[k] !in n.tags
    ensures LegacyFold(Render(n), edits, true) == Some(Render(n))
    decreases |edits|
  {
    if edits != [] {
      var e := edits[|edits| - 1];
      LegacyEditsOkPrefix(edits, true, |edits| - 1);
      LegacyFoldAbsent(n, edits[..|edits| - 1]);
      LegacyRemoveTagEffect(n, e);
      WithoutAbsent(n.tags, e);
      assert n.(tags := n.tags) == n;
    }
  }

  /** Once a removal has raised, the loop has raised. */
  lemma {:induction false} LegacyFoldRaised(name: string, tags: seq<string>, doRemove: bool, i: nat)
    requires i <= |tags| && LegacyFold(name, tags[..i], doRemove).None?
    ensures LegacyFold(name, tags, doRemove).None?
    decreases |tags|
  {
    if i < |tags| {
      var front := tags[..|tags| - 1];
      assert front[..i] == tags[..i];
      LegacyFoldRaised(name, front, doRemove, i);
    } else {
      assert tags[..i] == tags;
    }
  }

  /**
   * Removing, from a well-formed name without an extension, a list of tags
   * the `k`-th of which is the first it carries raises.
   */
  lemma LegacyFoldRaises(n: Name, edits: seq<string>, k: nat)
    requires WellFormed(n) && n.ext.None? && LegacyEditsOk(edits, true)
    requires k < |edits| && edits[k] in n.tags && forall j :: 0 <= j < k ==> edits[j] !in n.tags
    ensures LegacyFold(Render(n), edits, true).None?
  {
    LegacyEditsOkPrefix(edits, true, k);
    LegacyFoldAbsent(n, edits[..k]);
    LegacyRemoveTagEffect(n, edits[k]);
    LegacyFoldRaisesAt(Render(n), edits, k);
  }

  /** A removal that raises on the name the loop has reached makes the loop raise. */
  lemma LegacyFoldRaisesAt(name: string, edits: seq<string>, k: nat)
    requires k < |edits|
    requires LegacyFold(name, edits[..k], true) == Some(name) && LegacyRemoveTag(name, edits[k]).None?
    ensures LegacyFold(name, edits, true).None?
  {
    LegacyFoldStep(name, edits, true, k);
    LegacyFoldRaised(name, edits, true, k + 1);
  }

  /** One more edit of the loop. */
  lemma LegacyFoldStep(name: string, tags: seq<string>, doRemove: bool, i: nat)
    requires i < |tags|
    ensures LegacyFold(name, tags[..i + 1], doRemove) ==
      match LegacyFold(name, tags[..i], doRemove)
      case None => None
      case Some(m) => if doRemove then LegacyRemoveTag(m, tags[i]) else Some(LegacyAddTag(m, tags[i]))
  {
    assert tags[..i + 1][..i] == tags[..i];
  }

  /**
   * `handle_file(filename, tags, do_remove, dryrun)`; whether the name is a
   * directory and whether it is an existing file are given. Directories and
   * missing files are skipped; otherwise the file is renamed to the name the
   * loop computes (even when it is the same), unless this is a dry run.
   * `None` is the `TypeError` of a removal.
   */
  method LegacyHandleFile(filename: string, tags: seq<string>, doRemove: bool, dryrun: bool, isDir: bool, isFile: bool)
    returns (r: Option<Action>)
    ensures isDir || !isFile ==> r == Some(NoAction)
    ensures !isDir && isFile ==> r == match LegacyFold(filename, tags, doRemove)
      case None => None
      case Some(newName) => Some(if dryrun then NoAction else Rename(filename, newName))
  {
    if isDir || !isFile {
      return Some(NoAction);
    }
    var newFilename := filename;
    var i := 0;
    while i < |tags|
      invariant 0 <= i <= |tags|
      invariant LegacyFold(filename, tags[..i], doRemove) == Some(newFilename)
    {
      assert tags[..i + 1][..i] == tags[..i];
      if doRemove {
        var next := LegacyRemoveTag(newFilename, tags[i]);
        if next.None? {
          LegacyFoldRaised(filename, tags, doRemove, i + 1);
          return None;
        }
        newFilename := next.value;
      } else {
        newFilename := LegacyAddTag(newFilename, tags[i]);
      }
      i := i + 1;
    }
    assert tags[..i] == tags;
    if dryrun {
      r := Some(NoAction);
    } else {
      r := Some(Rename(filename, newFilename));
    }
  }
}
