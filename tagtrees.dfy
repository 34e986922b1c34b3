/**
 * The link plan of `generate_tagtrees`: for every file, the links the
 * tagtrees hierarchy asks for and how many of them are counted in
 * `num_of_links`. A link is a (source, target) pair of paths; creating
 * directories and links on disk is not part of this model.
 */
module Tagtrees {
  import opened Text
  import opened Paths
  import opened Codec
  import opened Permutations

  /** A symbolic link from `source` placed at `target`. */
  datatype Link = Link(source: string, target: string)

  /**
   * The arguments of `generate_tagtrees` and the `unique_tags` it reads:
   * the tagtrees root, the depth, how untagged files are treated, and
   * whether `no-...` directories are linked for unique groups.
   */
  datatype Config = Config(directory: string, maxdepth: int, ignoreNontagged: bool, nontaggedSubdir: string,
                           linkMissing: bool, groups: seq<seq<string>>)

  /** The combinations the assertion at the start of `generate_tagtrees` admits. */
  predicate ValidConfig(c: Config) {
    c.ignoreNontagged ==> c.nontaggedSubdir == ""
  }

  /** `UNIQUE_TAG_TESTSTRINGS`, the default group the link plan skips. */
  const UniqueTagTeststrings: seq<string> := ["teststring1", "teststring2"]

  /** `os.path.join(a, b)`: an absolute `b` replaces `a`. */
  function JoinComponent(a: string, b: string): string {
    if b != "" && b[0] == '/' then b else JoinPath(a, b)
  }

  /** `os.path.join(directory, *perm)` */
  function TagDir(directory: string, perm: seq<string>): string
    decreases |perm|
  {
    if perm == [] then directory else TagDir(JoinComponent(directory, perm[0]), perm[1..])
  }

  /** `nontagged_item_dest_dir`: `root/nontagged_subdir`, or `root` itself. */
  function UntaggedDir(c: Config): string {
    if c.nontaggedSubdir != "" then JoinComponent(c.directory, c.nontaggedSubdir) else c.directory
  }

  /** `root/no-g1-...-gk` for a group of mutually exclusive tags. */
  function MissingGroupDir(directory: string, group: seq<string>): string {
    JoinComponent(directory, "no-" + Join(group, '-'))
  }

  /** `not set(tags).intersection(set(group))` */
  predicate Disjoint(tags: seq<string>, group: seq<string>) {
    forall t :: t in tags ==> t !in group
  }

  /** A group that gets a `no-...` link for a file with these tags. */
  predicate Missing(tags: seq<string>, group: seq<string>) {
    group != UniqueTagTeststrings && Disjoint(tags, group)
  }

  /** The link of `file` into the directory of one permutation of its tags. */
  function TagLink(file: string, directory: string, perm: seq<string>): Link {
    Link(file, JoinComponent(TagDir(directory, perm), BaseName(file)))
  }

  /** The link of `file` into the `no-...` directory of a group. */
  function MissingLink(file: string, directory: string, group: seq<string>): Link {
    Link(file, JoinComponent(MissingGroupDir(directory, group), BaseName(file)))
  }

  /** The links of a file into the directories of some permutations of its tags, in order. */
  function PermutationLinks(file: string, directory: string, perms: seq<seq<string>>): (r: seq<Link>)
    ensures |r| == |perms|
    ensures forall k :: 0 <= k < |perms| ==> r[k] == TagLink(file, directory, perms[k])
  {
    seq(|perms|, k requires 0 <= k < |perms| => TagLink(file, directory, perms[k]))
  }

  /** The parts one after the other. */
  function Flatten<T>(parts: seq<seq<T>>): seq<T>
    decreases |parts|
  {
    if parts == [] then [] else Flatten(parts[..|parts| - 1]) + parts[|parts| - 1]
  }

  /** The links of a tagged file at depth `d + 1`, for `d` in `0..depth - 1`. */
  function LinksByDepth(file: string, directory: string, tags: seq<string>, depth: int): (r: seq<seq<Link>>)
    ensures |r| == if depth < 0 then 0 else depth
    ensures forall d :: 0 <= d < |r| ==> r[d] == PermutationLinks(file, directory, Perms(tags, d + 1))
  {
    seq(if depth < 0 then 0 else depth, d requires 0 <= d => PermutationLinks(file, directory, Perms(tags, d + 1)))
  }

  /** The links of a tagged file at depths `1..depth`, deepest last. */
  function DepthLinks(file: string, directory: string, tags: seq<string>, depth: int): seq<Link> {
    Flatten(LinksByDepth(file, directory, tags, depth))
  }

  /** The `no-...` links of a tagged file, one per non-default group it has no tag of. */
  function MissingLinks(file: string, directory: string, tags: seq<string>, groups: seq<seq<string>>): seq<Link>
    decreases |groups|
  {
    if groups == [] then []
    else
      var g := groups[|groups| - 1];
      MissingLinks(file, directory, tags, groups[..|groups| - 1]) + (if Missing(tags, g) then [MissingLink(file, directory, g)] else [])
  }

  /** The links one file with the given tags asks for. */
  function FileLinks(c: Config, file: string, tags: seq<string>): seq<Link> {
    if tags == [] then
      if c.ignoreNontagged then [] else [Link(file, JoinComponent(UntaggedDir(c), BaseName(file)))]
    else
      DepthLinks(file, c.directory, tags, c.maxdepth) + (if c.linkMissing then MissingLinks(file, c.directory, tags, c.groups) else [])
  }

  /** The links of each file, in the order of the files. */
  function LinksByFile(c: Config, files: seq<string>, tagsOfFiles: seq<seq<string>>): (r: seq<seq<Link>>)
    requires |tagsOfFiles| == |files|
    ensures |r| == |files|
    ensures forall k :: 0 <= k < |files| ==> r[k] == FileLinks(c, files[k], tagsOfFiles[k])
  {
    seq(|files|, k requires 0 <= k < |files| => FileLinks(c, files[k], tagsOfFiles[k]))
  }

  /** The links all files ask for, file by file; `tagsOfFiles[k]` are the tags of `files[k]`. */
  function LinkPlan(c: Config, files: seq<string>, tagsOfFiles: seq<seq<string>>): seq<Link>
    requires |tagsOfFiles| == |files|
    decreases |files|
  {
    if files == [] then []
    else LinkPlan(c, files[..|files| - 1], tagsOfFiles[..|files| - 1]) + FileLinks(c, files[|files| - 1], tagsOfFiles[|files| - 1])
  }

  /** `tags_of_files = [extract_tags_from_filename(x) for x in files]` */
  function TagsOfFiles(files: seq<string>): (r: seq<seq<string>>)
    ensures |r| == |files|
    ensures forall k :: 0 <= k < |files| ==> r[k] == ExtractTags(files[k])
  {
    seq(|files|, k requires 0 <= k < |files| => ExtractTags(files[k]))
  }

  // ---------------------------------------------------------------------
  // The loops of generate_tagtrees

  /**
   * The file loop of `generate_tagtrees` over the given (absolute) file
   * names: the links created (none in a dry run) and `num_of_links`, which
   * counts every attempted link, dry run or not.
   */
  method GenerateTagtrees(c: Config, files: seq<string>, dryrun: bool) returns (links: seq<Link>, numOfLinks: nat)
    requires ValidConfig(c)
    ensures numOfLinks == |LinkPlan(c, files, TagsOfFiles(files))|
    ensures links == if dryrun then [] else LinkPlan(c, files, TagsOfFiles(files))
  {
    var tagsOfFiles := TagsOfFiles(files);
    links, numOfLinks := LinkFiles(c, files, tagsOfFiles, dryrun);
  }

  /** `for currentfile in enumerate(files)`, with the tags of each file given. */
  method LinkFiles(c: Config, files: seq<string>, tagsOfFiles: seq<seq<string>>, dryrun: bool) returns (links: seq<Link>, numOfLinks: nat)
    requires |tagsOfFiles| == |files|
    ensures numOfLinks == |LinkPlan(c, files, tagsOfFiles)|
    ensures links == if dryrun then [] else LinkPlan(c, files, tagsOfFiles)
  {
    links := [];
    numOfLinks := 0;
    var i := 0;
    while i < |files|
      invariant 0 <= i <= |files|
      invariant numOfLinks == |LinkPlan(c, files[..i], tagsOfFiles[..i])|
      invariant links == if dryrun then [] else LinkPlan(c, files[..i], tagsOfFiles[..i])
    {
      var fileLinks := LinkFile(c, files[i], tagsOfFiles[i]);
      LinkPlanStep(c, files, tagsOfFiles, i);
      if !dryrun {
        links := links + fileLinks;
      }
      numOfLinks := numOfLinks + |fileLinks|;
      i := i + 1;
    }
    assert files[..i] == files && tagsOfFiles[..i] == tagsOfFiles;
  }

  /** Planning one more file appends its links. */
  lemma LinkPlanStep(c: Config, files: seq<string>, tagsOfFiles: seq<seq<string>>, i: nat)
    requires |tagsOfFiles| == |files| && i < |files|
    ensures LinkPlan(c, files[..i + 1], tagsOfFiles[..i + 1]) == LinkPlan(c, files[..i], tagsOfFiles[..i]) + FileLinks(c, files[i], tagsOfFiles[i])
  {
    assert files[..i + 1][..i] == files[..i] && tagsOfFiles[..i + 1][..i] == tagsOfFiles[..i];
  }

  /** The body of the file loop: the links attempted for one file. */
  method LinkFile(c: Config, file: string, tags: seq<string>) returns (fileLinks: seq<Link>)
    ensures fileLinks == FileLinks(c, file, tags)
  {
    fileLinks := [];
    if tags == [] {
      if !c.ignoreNontagged {
        fileLinks := [Link(file, JoinComponent(UntaggedDir(c), BaseName(file)))];
      }
    } else {
      ghost var parts := LinksByDepth(file, c.directory, tags, c.maxdepth);
      var depth := 1;
      while depth <= c.maxdepth
        invariant 1 <= depth <= |parts| + 1
        invariant fileLinks == Flatten(parts[..depth - 1])
      {
        var more := PermutationLoop(file, c.directory, Perms(tags, depth));
        FlattenStep(parts, depth - 1);
        fileLinks := fileLinks + more;
        depth := depth + 1;
      }
      assert parts[..depth - 1] == parts;
      if c.linkMissing {
        var missing := MissingLoop(file, c.directory, tags, c.groups);
        fileLinks := fileLinks + missing;
      }
    }
  }

  /** `for tagpermutation in itertools.permutations(tags, depth)` */
  method PermutationLoop(file: string, directory: string, perms: seq<seq<string>>) returns (more: seq<Link>)
    ensures more == PermutationLinks(file, directory, perms)
  {
    more := [];
    var k := 0;
    while k < |perms|
      invariant 0 <= k <= |perms|
      invariant more == PermutationLinks(file, directory, perms[..k])
    {
      assert PermutationLinks(file, directory, perms[..k + 1]) == PermutationLinks(file, directory, perms[..k]) + [TagLink(file, directory, perms[k])];
      more := more + [TagLink(file, directory, perms[k])];
      k := k + 1;
    }
    assert perms[..k] == perms;
  }

  /** The loop over `unique_tags` for one tagged file. */
  method MissingLoop(file: string, directory: string, tags: seq<string>, groups: seq<seq<string>>) returns (missing: seq<Link>)
    ensures missing == MissingLinks(file, directory, tags, groups)
  {
    missing := [];
    var j := 0;
    while j < |groups|
      invariant 0 <= j <= |groups|
      invariant missing == MissingLinks(file, directory, tags, groups[..j])
    {
      assert groups[..j + 1][..j] == groups[..j];
      var g := groups[j];
      if g != UniqueTagTeststrings {
        if Disjoint(tags, g) {
          missing := missing + [MissingLink(file, directory, g)];
        }
      }
      j := j + 1;
    }
    assert groups[..j] == groups;
  }

  // ---------------------------------------------------------------------
  // Properties of the plan

  /** An untagged file is skipped when untagged files are ignored, and linked once otherwise. */
  lemma UntaggedFileLinks(c: Config, file: string)
    ensures c.ignoreNontagged ==> FileLinks(c, file, []) == []
    ensures !c.ignoreNontagged ==> FileLinks(c, file, []) == [Link(file, JoinComponent(UntaggedDir(c), BaseName(file)))]
  {
  }

  /** Flattening one more part appends it. */
  lemma FlattenStep<T>(parts: seq<seq<T>>, i: nat)
    requires i < |parts|
    ensures Flatten(parts[..i + 1]) == Flatten(parts[..i]) + parts[i]
  {
    assert parts[..i + 1][..i] == parts[..i];
  }

  /** An element of the flattened parts is an element of one of them. */
  lemma {:induction false} FlattenMembers<T>(parts: seq<seq<T>>, x: T)
    ensures x in Flatten(parts) <==> exists k :: 0 <= k < |parts| && x in parts[k]
    decreases |parts|
  {
    if parts != [] {
      var n := |parts| - 1;
      FlattenMembers(parts[..n], x);
      if exists k :: 0 <= k < |parts| && x in parts[k] {
        var k :| 0 <= k < |parts| && x in parts[k];
        if k < n {
          assert parts[..n][k] == parts[k];
        }
      }
      if x in Flatten(parts[..n]) {
        var k :| 0 <= k < n && x in parts[..n][k];
        assert parts[..n][k] == parts[k];
      }
    }
  }

  /** The length of the flattened parts is the sum of their lengths. */
  function TotalLength<T>(parts: seq<seq<T>>): nat
    decreases |parts|
  {
    if parts == [] then 0 else TotalLength(parts[..|parts| - 1]) + |parts[|parts| - 1]|
  }

  lemma {:induction false} FlattenLength<T>(parts: seq<seq<T>>)
    ensures |Flatten(parts)| == TotalLength(parts)
    decreases |parts|
  {
    if parts != [] {
      FlattenLength(parts[..|parts| - 1]);
    }
  }

  /** The tagtree links of a tagged file are exactly one per permutation of its tags of depth `1..depth`. */
  lemma DepthLinksMembers(file: string, directory: string, tags: seq<string>, depth: int, l: Link)
    ensures l in DepthLinks(file, directory, tags, depth) <==>
      exists d, p :: 1 <= d <= depth && p in Perms(tags, d) && l == TagLink(file, directory, p)
  {
    var parts := LinksByDepth(file, directory, tags, depth);
    FlattenMembers(parts, l);
    if l in DepthLinks(file, directory, tags, depth) {
      var k :| 0 <= k < |parts| && l in parts[k];
      var ps := Perms(tags, k + 1);
      var j :| 0 <= j < |ps| && PermutationLinks(file, directory, ps)[j] == l;
      assert 1 <= k + 1 <= depth && ps[j] in Perms(tags, k + 1) && l == TagLink(file, directory, ps[j]);
    }
    if exists d, p :: 1 <= d <= depth && p in Perms(tags, d) && l == TagLink(file, directory, p) {
      var d, p :| 1 <= d <= depth && p in Perms(tags, d) && l == TagLink(file, directory, p);
      var ps := Perms(tags, d);
      var j :| 0 <= j < |ps| && ps[j] == p;
      assert parts[d - 1][j] == l;
    }
  }

  /** The sum of `FallingFactorial(n, d)` for `d` in `1..depth`. */
  function LinksUpToDepth(n: nat, depth: int): nat
    decreases if depth < 0 then 0 else depth
  {
    if depth <= 0 then 0 else LinksUpToDepth(n, depth - 1) + FallingFactorial(n, depth)
  }

  /** A tagged file with `n` tags gets `n`, `n(n-1)`, ... tagtree links at depths 1, 2, ... */
  lemma {:induction false} DepthLinksCount(file: string, directory: string, tags: seq<string>, depth: int)
    ensures |DepthLinks(file, directory, tags, depth)| == LinksUpToDepth(|tags|, depth)
    decreases if depth < 0 then 0 else depth
  {
    var parts := LinksByDepth(file, directory, tags, depth);
    FlattenLength(parts);
    if depth > 0 {
      DepthLinksCount(file, directory, tags, depth - 1);
      var front := LinksByDepth(file, directory, tags, depth - 1);
      assert parts[..depth - 1] == front;
      FlattenLength(front);
      PermsCount(tags, depth);
    }
  }

  /** The `no-...` links are those of the groups, other than the default one, that share no tag with the file. */
  lemma {:induction false} MissingLinksMembers(file: string, directory: string, tags: seq<string>, groups: seq<seq<string>>)
    ensures forall l :: l in MissingLinks(file, directory, tags, groups) ==>
      exists g :: g in groups && Missing(tags, g) && l == MissingLink(file, directory, g)
    ensures forall g :: g in groups && Missing(tags, g) ==> MissingLink(file, directory, g) in MissingLinks(file, directory, tags, groups)
    decreases |groups|
  {
    if groups != [] {
      var front := groups[..|groups| - 1];
      MissingLinksMembers(file, directory, tags, front);
      assert groups == front + [groups[|groups| - 1]];
    }
  }

  /** The default group never yields a link. */
  lemma TeststringsSkipped(file: string, directory: string, tags: seq<string>, groups: seq<seq<string>>)
    requires groups == [UniqueTagTeststrings]
    ensures MissingLinks(file, directory, tags, groups) == []
  {
    assert groups[..0] == [];
  }

  /** The plan is the links of the files one after the other. */
  lemma {:induction false} LinkPlanFlatten(c: Config, files: seq<string>, tagsOfFiles: seq<seq<string>>)
    requires |tagsOfFiles| == |files|
    ensures LinkPlan(c, files, tagsOfFiles) == Flatten(LinksByFile(c, files, tagsOfFiles))
    decreases |files|
  {
    if files != [] {
      var n := |files| - 1;
      LinkPlanFlatten(c, files[..n], tagsOfFiles[..n]);
      var parts := LinksByFile(c, files, tagsOfFiles);
      assert parts[..n] == LinksByFile(c, files[..n], tagsOfFiles[..n]);
    }
  }

  /** The links planned are those of the single files. */
  lemma LinkPlanMembers(c: Config, files: seq<string>, tagsOfFiles: seq<seq<string>>, l: Link)
    requires |tagsOfFiles| == |files|
    ensures l in LinkPlan(c, files, tagsOfFiles) <==> exists k :: 0 <= k < |files| && l in FileLinks(c, files[k], tagsOfFiles[k])
  {
    LinkPlanFlatten(c, files, tagsOfFiles);
    var parts := LinksByFile(c, files, tagsOfFiles);
    FlattenMembers(parts, l);
    if exists k :: 0 <= k < |files| && l in FileLinks(c, files[k], tagsOfFiles[k]) {
      var k :| 0 <= k < |files| && l in FileLinks(c, files[k], tagsOfFiles[k]);
      assert l in parts[k];
    }
  }

  /** `num_of_links` is the total number of links of the files. */
  lemma LinkPlanCount(c: Config, files: seq<string>, tagsOfFiles: seq<seq<string>>)
    requires |tagsOfFiles| == |files|
    ensures |LinkPlan(c, files, tagsOfFiles)| == TotalLength(LinksByFile(c, files, tagsOfFiles))
  {
    LinkPlanFlatten(c, files, tagsOfFiles);
    FlattenLength(LinksByFile(c, files, tagsOfFiles));
  }
}
