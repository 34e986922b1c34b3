/**
 * The POSIX path functions the codec uses: `os.path.basename`,
 * `os.path.dirname` and `os.path.join` of a directory and a base name.
 */
module Paths {
  import opened Wrappers
  import opened Text

  predicate AllSlashes(s: string) {
    forall i :: 0 <= i < |s| ==> s[i] == '/'
  }

  /** `head.rstrip('/')` */
  function StripTrailingSlashes(s: string): (r: string)
    ensures |r| <= |s| && r == s[..|r|]
    ensures r == [] || r[|r| - 1] != '/'
    ensures forall k :: |r| <= k < |s| ==> s[k] == '/'
  {
    if s != [] && s[|s| - 1] == '/' then StripTrailingSlashes(s[..|s| - 1]) else s
  }

  /** `os.path.basename(p)`: the text after the last slash. */
  function BaseName(p: string): (r: string)
    ensures '/' !in r
    ensures '/' !in p ==> r == p
  {
    match LastIndexOf(p, '/')
    case None => p
    case Some(i) => p[i + 1..]
  }

  /** `os.path.dirname(p)`: the text up to the last slash, trailing slashes removed unless it is all slashes. */
  function DirName(p: string): (r: string)
    ensures r == "" || AllSlashes(r) || (r[|r| - 1] != '/' && !AllSlashes(r))
    ensures '/' !in p ==> r == ""
  {
    match LastIndexOf(p, '/')
    case None => ""
    case Some(i) =>
      var head := p[..i + 1];
      if AllSlashes(head) then head
      else
        var r := StripTrailingSlashes(head);
        assert r != [];
        assert !AllSlashes(r);
        r
  }

  /** `os.path.join(d, b)` for a base name `b` (which holds no slash). */
  function JoinPath(d: string, b: string): string
  {
    if d == "" || d[|d| - 1] == '/' then d + b else d + "/" + b
  }

  /** The base name of a joined path is the name that was joined. */
  lemma BaseNameJoinPath(d: string, b: string)
    requires '/' !in b
    ensures BaseName(JoinPath(d, b)) == b
  {
    var q := JoinPath(d, b);
    if d == "" {
    } else if d[|d| - 1] == '/' {
      assert q[|d| - 1] == '/' && q[|d|..] == b;
    } else {
      assert q[|d|] == '/' && q[|d| + 1..] == b;
    }
  }

  /** Joining a directory with a base name and splitting again gives both back. */
  lemma JoinPathSplits(p: string, b: string)
    requires '/' !in b
    ensures BaseName(JoinPath(DirName(p), b)) == b
    ensures DirName(JoinPath(DirName(p), b)) == DirName(p)
  {
    var d := DirName(p);
    BaseNameJoinPath(d, b);
    if d == "" {
      assert JoinPath(d, b) == b;
    } else if AllSlashes(d) {
      DirNameJoinSlashes(d, b);
    } else {
      DirNameJoinPlain(d, b);
    }
  }

  /** A root made of slashes is its own directory part once a base name follows it. */
  lemma DirNameJoinSlashes(d: string, b: string)
    requires '/' !in b && d != "" && AllSlashes(d)
    ensures DirName(JoinPath(d, b)) == d
  {
    var q := JoinPath(d, b);
    assert q == d + b;
    assert q[|d|..] == b;
    LastIndexOfIs(q, '/', |d| - 1);
    assert q[..|d|] == d;
  }

  /** A directory not ending in a slash is the directory part of itself joined with a base name. */
  lemma DirNameJoinPlain(d: string, b: string)
    requires '/' !in b && d != "" && d[|d| - 1] != '/' && !AllSlashes(d)
    ensures DirName(JoinPath(d, b)) == d
  {
    var q := JoinPath(d, b);
    assert q == d + "/" + b;
    assert q[|d| + 1..] == b;
    LastIndexOfIs(q, '/', |d|);
    var head := q[..|d| + 1];
    assert head == d + "/";
    assert !AllSlashes(head) by {
      var k :| 0 <= k < |d| && d[k] != '/';
      assert head[k] == d[k];
    }
    assert head[..|head| - 1] == d;
  }
}
