/**
 * The tag loop of `handle_file` in the current package: each entered tag is
 * removed (with `--remove`), removed when it reads `-tag`, or added; adding a
 * tag of a group of mutually exclusive tags first removes every tag of the
 * first group that holds it.
 */
module Edits {
  import opened Wrappers
  import opened Text
  import opened Paths
  import opened Codec
  import opened CodecProps

  /** The index of the first group holding `item`. */
  function FirstGroupIndex(item: string, groups: seq<seq<string>>): (r: Option<nat>)
    ensures r.Some? ==> r.value < |groups| && item in groups[r.value]
    ensures forall j :: 0 <= j < |groups| && (r.None? || j < r.value) ==> item !in groups[j]
  {
    if groups == [] then None
    else if item in groups[0] then Some(0)
    else
      match FirstGroupIndex(item, groups[1..])
      case None => None
      case Some(k) => Some(k + 1)
  }

  /** `item_contained_in_list_of_lists(item, groups)`: the first group holding the item; `None` for `(None, None)`. */
  function FirstGroupContaining(item: string, groups: seq<seq<string>>): (r: Option<seq<string>>)
    ensures r.None? <==> forall k :: 0 <= k < |groups| ==> item !in groups[k]
    ensures r.Some? ==> item in r.value && r.value in groups
    ensures r.Some? ==> exists k :: 0 <= k < |groups| && r.value == groups[k] && forall j :: 0 <= j < k ==> item !in groups[j]
  {
    match FirstGroupIndex(item, groups)
    case None => None
    case Some(k) => Some(groups[k])
  }

  /** The loop of `item_contained_in_list_of_lists`. */
  method ItemContainedInListOfLists(item: string, groups: seq<seq<string>>) returns (r: Option<seq<string>>)
    ensures r == FirstGroupContaining(item, groups)
  {
    var i := 0;
    while i < |groups|
      invariant 0 <= i <= |groups|
      invariant forall j :: 0 <= j < i ==> item !in groups[j]
    {
      if item in groups[i] {
        return Some(groups[i]);
      }
      i := i + 1;
    }
    return None;
  }

  /**
   * `list(set(current).intersection(group))`. Python leaves the order of a
   * set open; the model lists each common tag once, in the order of its last
   * occurrence, and `RemoveEachOrder` shows the order does not matter.
   */
  function Conflicting(current: seq<string>, group: seq<string>): (r: seq<string>)
    ensures forall x :: x in r <==> x in current && x in group
    ensures Distinct(r)
  {
    if current == [] then []
    else
      var rest := Conflicting(current[1..], group);
      if current[0] in group && current[0] !in rest then
        DistinctCons(current[0], rest);
        [current[0]] + rest
      else rest
  }

  /** `removing_tag_from_filename` applied for each of `rs` in turn. */
  function RemoveEach(name: string, rs: seq<string>): string
    decreases |rs|
  {
    if rs == [] then name else RemoveTag(RemoveEach(name, rs[..|rs| - 1]), rs[|rs| - 1])
  }

  /** The tags `handle_file` may be given: `tagname[0]` needs a non-empty tag unless tags are removed. */
  predicate Allowed(tag: string, doRemove: bool) {
    doRemove || tag != ""
  }

  /** One step of the tag loop of `handle_file` on the base name. */
  function ApplyTag(base: string, tag: string, doRemove: bool, groups: seq<seq<string>>): string
    requires Allowed(tag, doRemove)
  {
    if doRemove then RemoveTag(base, tag)
    else if tag[0] == '-' then RemoveTag(base, tag[1..])
    else
      match FirstGroupContaining(tag, groups)
      case None => AddTag(base, tag)
      case Some(g) => AddTag(RemoveEach(base, Conflicting(ExtractTags(base), g)), tag)
  }

  predicate AllAllowed(tags: seq<string>, doRemove: bool) {
    forall k :: 0 <= k < |tags| ==> Allowed(tags[k], doRemove)
  }

  /** The new base name after the whole tag loop. */
  function FoldEdits(base: string, tags: seq<string>, doRemove: bool, groups: seq<seq<string>>): string
    requires AllAllowed(tags, doRemove)
    decreases |tags|
  {
    if tags == [] then base
    else ApplyTag(FoldEdits(base, tags[..|tags| - 1], doRemove, groups), tags[|tags| - 1], doRemove, groups)
  }

  // ---------------------------------------------------------------------
  // The same edits on the list of tags of a well-formed name

  /** An edit `EditTag` describes: a remove needs a non-empty tag, an add a valid one (and `-x` a valid `x`). */
  predicate EditOk(tag: string, doRemove: bool) {
    if doRemove then tag != "" else ValidTag(tag) && (tag[0] == '-' ==> |tag| >= 2)
  }

  predicate AllEditOk(tags: seq<string>, doRemove: bool) {
    forall k :: 0 <= k < |tags| ==> EditOk(tags[k], doRemove)
  }

  /** What one edit does to the list of tags. */
  function EditTag(tags: seq<string>, tag: string, doRemove: bool, groups: seq<seq<string>>): seq<string>
    requires doRemove || tag != ""
  {
    if doRemove then Without(tags, tag)
    else if tag[0] == '-' then Without(tags, tag[1..])
    else
      match FirstGroupContaining(tag, groups)
      case None => if tag in tags then tags else tags + [tag]
      case Some(g) => FilterOut(tags, g) + [tag]
  }

  function EditTags(tags: seq<string>, edits: seq<string>, doRemove: bool, groups: seq<seq<string>>): seq<string>
    requires AllAllowed(edits, doRemove)
    decreases |edits|
  {
    if edits == [] then tags
    else EditTag(EditTags(tags, edits[..|edits| - 1], doRemove, groups), edits[|edits| - 1], doRemove, groups)
  }

  /** With `--remove`, the edits drop every listed tag and keep the order of the others. */
  lemma {:induction false} EditTagsRemove(tags: seq<string>, edits: seq<string>, groups: seq<seq<string>>)
    ensures EditTags(tags, edits, true, groups) == FilterOut(tags, edits)
    decreases |edits|
  {
    if edits == [] {
      FilterOutNothing(tags);
    } else {
      var front := edits[..|edits| - 1];
      EditTagsRemove(tags, front, groups);
      WithoutFilterOutLast(tags, edits);
    }
  }

  /** `-x` drops `x` and nothing else. */
  lemma EditTagMinus(tags: seq<string>, tag: string, groups: seq<seq<string>>)
    requires tag != "" && tag[0] == '-'
    ensures tag[1..] !in EditTag(tags, tag, false, groups)
    ensures forall x :: x != tag[1..] ==> (x in EditTag(tags, tag, false, groups) <==> x in tags)
  {
  }

  /** A tag of no group is added once, at the end, unless it is there already. */
  lemma EditTagPlain(tags: seq<string>, tag: string, groups: seq<seq<string>>)
    requires tag != "" && tag[0] != '-' && forall k :: 0 <= k < |groups| ==> tag !in groups[k]
    ensures EditTag(tags, tag, false, groups) == if tag in tags then tags else tags + [tag]
    ensures tag in EditTag(tags, tag, false, groups)
  {
  }

  /**
   * A tag of a group of mutually exclusive tags becomes the last tag and the
   * only one of the first group holding it; tags outside that group stay.
   */
  lemma EditTagUnique(tags: seq<string>, tag: string, groups: seq<seq<string>>, g: seq<string>)
    requires tag != "" && tag[0] != '-' && FirstGroupContaining(tag, groups) == Some(g)
    ensures var r := EditTag(tags, tag, false, groups); r != [] && r[|r| - 1] == tag
    ensures forall x :: x in EditTag(tags, tag, false, groups) && x in g ==> x == tag
    ensures forall x :: x !in g ==> (x in EditTag(tags, tag, false, groups) <==> x in tags)
  {
  }

  // ---------------------------------------------------------------------
  // The tag loop on well-formed names

  lemma WellFormedFilterOut(n: Name, rs: seq<string>)
    requires WellFormed(n)
    ensures WellFormed(n.(tags := FilterOut(n.tags, rs)))
  {
    FilterOutDistinct(n.tags, rs);
    var r := FilterOut(n.tags, rs);
    forall k | 0 <= k < |r| ensures ValidTag(r[k]) {
      assert r[k] in n.tags;
    }
  }

  lemma ExtractTagsBase(n: Name)
    requires WellFormed(n)
    ensures ExtractTags(Render(n)) == n.tags
  {
    RenderNoSlash(n);
    if n.tags == [] {
      ParseUntagged(n);
    } else {
      ParseRender(n);
    }
  }

  /** Removing each of `rs` from a well-formed base name drops them from its tags. */
  lemma {:induction false} RemoveEachRender(n: Name, rs: seq<string>)
    requires WellFormed(n) && forall k :: 0 <= k < |rs| ==> rs[k] != ""
    ensures RemoveEach(Render(n), rs) == Render(n.(tags := FilterOut(n.tags, rs)))
    decreases |rs|
  {
    if rs == [] {
      FilterOutNothing(n.tags);
      assert n.(tags := n.tags) == n;
    } else {
      var front := rs[..|rs| - 1];
      var y := rs[|rs| - 1];
      var m := n.(tags := FilterOut(n.tags, front));
      assert RemoveEach(Render(n), front) == Render(m) by {
        RemoveEachRender(n, front);
      }
      assert RemoveTag(Render(m), y) == Render(m.(tags := Without(m.tags, y))) by {
        WellFormedFilterOut(n, front);
        RemoveTagEffect(m, y);
      }
      WithoutFilterOutLast(n.tags, rs);
    }
  }

  /** The order in which the conflicting tags are removed does not matter. */
  lemma RemoveEachOrder(n: Name, rs: seq<string>, qs: seq<string>)
    requires WellFormed(n)
    requires forall k :: 0 <= k < |rs| ==> rs[k] != ""
    requires forall k :: 0 <= k < |qs| ==> qs[k] != ""
    requires forall x :: x in rs <==> x in qs
    ensures RemoveEach(Render(n), rs) == RemoveEach(Render(n), qs)
  {
    RemoveEachRender(n, rs);
    RemoveEachRender(n, qs);
    FilterOutSameElements(n.tags, rs, qs);
  }

  /** `adding_tag_to_filename` on a well-formed base name appends the tag unless it is there. */
  lemma AddTagBase(n: Name, t: string)
    requires WellFormed(n) && ValidTag(t)
    ensures AddTag(Render(n), t) == Render(n.(tags := if t in n.tags then n.tags else n.tags + [t]))
  {
    RenderNoSlash(n);
    AddTagEffect(Render(n), n, t);
  }

  lemma WellFormedEdit(n: Name, tag: string, doRemove: bool, groups: seq<seq<string>>)
    requires WellFormed(n) && EditOk(tag, doRemove)
    ensures WellFormed(n.(tags := EditTag(n.tags, tag, doRemove, groups)))
  {
    if doRemove {
      WellFormedWithout(n, tag);
    } else if tag[0] == '-' {
      WellFormedWithout(n, tag[1..]);
    } else {
      match FirstGroupContaining(tag, groups)
      case None =>
        if tag !in n.tags {
          WellFormedAppend(n, tag);
        }
      case Some(g) =>
        WellFormedFilterOut(n, g);
        WellFormedAppend(n.(tags := FilterOut(n.tags, g)), tag);
    }
  }

  /** One step of the tag loop on a well-formed base name is `EditTag` on its tags. */
  lemma ApplyTagRender(n: Name, tag: string, doRemove: bool, groups: seq<seq<string>>)
    requires WellFormed(n) && EditOk(tag, doRemove)
    ensures ApplyTag(Render(n), tag, doRemove, groups) == Render(n.(tags := EditTag(n.tags, tag, doRemove, groups)))
  {
    if doRemove {
      RemoveTagEffect(n, tag);
    } else if tag[0] == '-' {
      RemoveTagEffect(n, tag[1..]);
    } else {
      match FirstGroupContaining(tag, groups)
      case None =>
        AddTagBase(n, tag);
      case Some(g) =>
        var c := Conflicting(ExtractTags(Render(n)), g);
        ExtractTagsBase(n);
        assert forall k :: 0 <= k < |c| ==> c[k] != "" by {
          forall k | 0 <= k < |c| ensures c[k] != "" {
            assert c[k] in n.tags;
          }
        }
        RemoveEachRender(n, c);
        FilterOutSameElements(n.tags, c, g);
        var m := n.(tags := FilterOut(n.tags, g));
        WellFormedFilterOut(n, g);
        AddTagBase(m, tag);
    }
  }

  /** The whole tag loop on a well-formed base name is `EditTags` on its tags, and the name stays well formed. */
  lemma {:induction false} FoldEditsRender(n: Name, edits: seq<string>, doRemove: bool, groups: seq<seq<string>>)
    requires WellFormed(n) && AllEditOk(edits, doRemove)
    ensures AllAllowed(edits, doRemove)
    ensures FoldEdits(Render(n), edits, doRemove, groups) == Render(n.(tags := EditTags(n.tags, edits, doRemove, groups)))
    ensures WellFormed(n.(tags := EditTags(n.tags, edits, doRemove, groups)))
    decreases |edits|
  {
    if edits != [] {
      var front := edits[..|edits| - 1];
      var last := edits[|edits| - 1];
      assert AllEditOk(front, doRemove) by {
        forall k | 0 <= k < |front| ensures EditOk(front[k], doRemove) {
          assert front[k] == edits[k];
        }
      }
      FoldEditsRender(n, front, doRemove, groups);
      var m := n.(tags := EditTags(n.tags, front, doRemove, groups));
      assert EditOk(last, doRemove);
      ApplyTagRender(m, last, doRemove, groups);
      WellFormedEdit(m, last, doRemove, groups);
    } else {
      assert n.(tags := n.tags) == n;
    }
  }

  /**
   * The first finding as `handle_file` meets it: tagging `a.b-c` with `x`
   * produces `a -- x.b-c`, whose only tag is `x.b-c`.
   */
  lemma FoldMisplacesTag(base: string, x: string)
    requires base == "a.b-c" && x == "x"
    ensures AllAllowed([x], false)
    ensures FoldEdits(base, [x], false, []) == "a -- x.b-c"
    ensures !ContainsTag(FoldEdits(base, [x], false, []), x)
  {
    assert x[0] == 'x';
    assert FirstGroupIndex(x, []) == None;
    FoldOnePlain(base, x, []);
    AddTagMisplacesTag(base, x);
  }

  /** The tag loop over one plain tag of no group is `adding_tag_to_filename`. */
  lemma FoldOnePlain(base: string, x: string, groups: seq<seq<string>>)
    requires x != "" && x[0] != '-' && FirstGroupContaining(x, groups).None?
    ensures AllAllowed([x], false)
    ensures FoldEdits(base, [x], false, groups) == AddTag(base, x)
  {
    assert [x][..0] == [];
  }

  // ---------------------------------------------------------------------
  // handle_file

  lemma AllAllowedPrefix(tags: seq<string>, doRemove: bool, i: nat)
    requires AllAllowed(tags, doRemove) && i <= |tags|
    ensures AllAllowed(tags[..i], doRemove)
  {
    forall k | 0 <= k < i ensures Allowed(tags[..i][k], doRemove) {
      assert tags[..i][k] == tags[k];
    }
  }

  /** The inner loop of `handle_file` over the conflicting tags. */
  method RemoveConflicting(name: string, conflicting: seq<string>) returns (r: string)
    ensures r == RemoveEach(name, conflicting)
  {
    r := name;
    var j := 0;
    while j < |conflicting|
      invariant 0 <= j <= |conflicting|
      invariant r == RemoveEach(name, conflicting[..j])
    {
      assert conflicting[..j + 1][..j] == conflicting[..j];
      r := RemoveTag(r, conflicting[j]);
      j := j + 1;
    }
    assert conflicting[..j] == conflicting;
  }

  /** The body of the tag loop of `handle_file`. */
  method HandleTag(newBasename: string, tagname: string, doRemove: bool, groups: seq<seq<string>>) returns (r: string)
    requires Allowed(tagname, doRemove)
    ensures r == ApplyTag(newBasename, tagname, doRemove, groups)
  {
    if doRemove {
      r := RemoveTag(newBasename, tagname);
    } else if tagname[0] == '-' {
      r := RemoveTag(newBasename, tagname[1..]);
    } else {
      var group := ItemContainedInListOfLists(tagname, groups);
      r := newBasename;
      if group.Some? {
        r := RemoveConflicting(r, Conflicting(ExtractTags(r), group.value));
      }
      r := AddTag(r, tagname);
    }
  }

  /** What `handle_file` asks of the file system. */
  datatype Action = NoAction | Rename(source: string, target: string) | Link(source: string, target: string)

  /**
   * `handle_file(orig_filename, tags, do_remove, do_filter, dryrun)` in a
   * directory `dirname` (the absolute directory `split_up_filename` gives).
   * With `do_filter` the file is linked into the tag filter directory and the
   * result is `None`; otherwise the new name is returned, and the file is
   * renamed when its base name changed and this is not a dry run.
   */
  method HandleFile(dirname: string, origFilename: string, tags: seq<string>, doRemove: bool, doFilter: bool,
                    dryrun: bool, tagfilterDirectory: string, groups: seq<seq<string>>)
    returns (newFilename: Option<string>, action: Action)
    requires AllAllowed(tags, doRemove)
    ensures var basename := BaseName(origFilename);
      if doFilter then
        newFilename.None? && action == (if dryrun then NoAction else Link(JoinPath(dirname, basename), JoinPath(tagfilterDirectory, basename)))
      else
        var nb := FoldEdits(basename, tags, doRemove, groups);
        newFilename == Some(JoinPath(dirname, nb))
        && action == (if basename != nb && !dryrun then Rename(JoinPath(dirname, basename), JoinPath(dirname, nb)) else NoAction)
  {
    var basename := BaseName(origFilename);
    var filename := JoinPath(dirname, basename);
    if doFilter {
      action := if dryrun then NoAction else Link(filename, JoinPath(tagfilterDirectory, basename));
      return None, action;
    }
    var newBasename := basename;
    var i := 0;
    while i < |tags|
      invariant 0 <= i <= |tags|
      invariant AllAllowed(tags[..i], doRemove)
      invariant newBasename == FoldEdits(basename, tags[..i], doRemove, groups)
    {
      AllAllowedPrefix(tags, doRemove, i + 1);
      assert tags[..i + 1][..i] == tags[..i];
      newBasename := HandleTag(newBasename, tags[i], doRemove, groups);
      i := i + 1;
    }
    assert tags[..i] == tags;
    var newName := JoinPath(dirname, newBasename);
    action := if basename != newBasename && !dryrun then Rename(filename, newName) else NoAction;
    return Some(newName), action;
  }
}
