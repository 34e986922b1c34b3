/**
 * `find_unique_alternative_to_file`: for a file name that does not exist,
 * the one existing name starting with the longest prefix of it that some
 * existing name starts with. The existing names of the directory are given.
 */
module Alternative {
  import opened Wrappers
  import opened Text

  /** The existing names starting with `prefix`, in the order of the listing. */
  function Matches(existing: seq<string>, prefix: string): (r: seq<string>)
    ensures |r| <= |existing|
    decreases |existing|
  {
    if existing == [] then []
    else
      var last := existing[|existing| - 1];
      Matches(existing[..|existing| - 1], prefix) + (if StartsWith(last, prefix) then [last] else [])
  }

  /** `Matches` for every prefix of `filename`, indexed by the prefix length. */
  function MatchTable(filename: string, existing: seq<string>): (t: seq<seq<string>>)
    ensures |t| == |filename| + 1
  {
    seq(|filename| + 1, k requires 0 <= k <= |filename| => Matches(existing, filename[..k]))
  }

  /** The last non-empty entry of `table` at index `len` or below but above 0, or `[]`. */
  function FirstNonEmpty(table: seq<seq<string>>, len: nat): seq<string>
    requires len < |table|
  {
    if len == 0 then []
    else if table[len] != [] then table[len]
    else FirstNonEmpty(table, len - 1)
  }

  /** The matches of the longest prefix of `filename`, of length `len` or less but at least 1, that has any. */
  function FirstMatches(filename: string, existing: seq<string>, len: nat): seq<string>
    requires len <= |filename|
  {
    FirstNonEmpty(MatchTable(filename, existing), len)
  }

  /** The alternative found: the single match, or `None` for `False`. */
  function UniqueAlternative(filename: string, existing: seq<string>): Option<string> {
    var m := FirstMatches(filename, existing, |filename|);
    if |m| == 1 then Some(m[0]) else None
  }

  /** The prefix-shrinking loop of `find_unique_alternative_to_file`. */
  method FindUniqueAlternative(filename: string, existing: seq<string>) returns (r: Option<string>)
    ensures r == UniqueAlternative(filename, existing)
  {
    var matching: seq<string> := [];
    var substring := filename;
    var i := 0;
    while i < |filename|
      invariant 0 <= i <= |filename|
      invariant substring == filename[..|filename| - i]
      invariant matching == []
      invariant FirstMatches(filename, existing, |filename|) == FirstMatches(filename, existing, |filename| - i)
    {
      matching := MatchLoop(existing, substring);
      if matching != [] {
        break;
      }
      substring := filename[..|filename| - (i + 1)];
      i := i + 1;
    }
    assert matching == FirstMatches(filename, existing, |filename|);
    if |matching| == 1 {
      r := Some(matching[0]);
    } else {
      r := None;
    }
  }

  /** `for existingfilename in existingfilenames: if ...startswith(...): matchingfilenames.append(...)` */
  method MatchLoop(existing: seq<string>, prefix: string) returns (matching: seq<string>)
    ensures matching == Matches(existing, prefix)
  {
    matching := [];
    var j := 0;
    while j < |existing|
      invariant 0 <= j <= |existing|
      invariant matching == Matches(existing[..j], prefix)
    {
      assert existing[..j + 1][..j] == existing[..j];
      if StartsWith(existing[j], prefix) {
        matching := matching + [existing[j]];
      }
      j := j + 1;
    }
    assert existing[..j] == existing;
  }

  /** The matches of a prefix are exactly the existing names that start with it. */
  lemma {:induction false} MatchesMembers(existing: seq<string>, prefix: string)
    ensures forall e :: e in Matches(existing, prefix) <==> e in existing && StartsWith(e, prefix)
    decreases |existing|
  {
    if existing != [] {
      var front := existing[..|existing| - 1];
      MatchesMembers(front, prefix);
      assert existing == front + [existing[|existing| - 1]];
    }
  }

  /** No matches when no existing name starts with the prefix. */
  lemma {:induction false} MatchesNone(existing: seq<string>, prefix: string)
    requires forall e :: e in existing ==> !StartsWith(e, prefix)
    ensures Matches(existing, prefix) == []
    decreases |existing|
  {
    if existing != [] {
      var front := existing[..|existing| - 1];
      assert forall e :: e in front ==> e in existing;
      MatchesNone(front, prefix);
    }
  }

  /** The search comes back empty exactly when every entry from 1 to `len` is empty. */
  lemma {:induction false} FirstNonEmptyEmpty(table: seq<seq<string>>, len: nat)
    requires len < |table|
    ensures FirstNonEmpty(table, len) == [] <==> forall k :: 1 <= k <= len ==> table[k] == []
  {
    if len > 0 && table[len] == [] {
      FirstNonEmptyEmpty(table, len - 1);
    }
  }

  /** A non-empty result is the entry at some index `k`, and every entry above `k` up to `len` is empty. */
  lemma {:induction false} FirstNonEmptyLast(table: seq<seq<string>>, len: nat) returns (k: nat)
    requires len < |table|
    requires FirstNonEmpty(table, len) != []
    ensures 1 <= k <= len && FirstNonEmpty(table, len) == table[k]
    ensures forall k' :: k < k' <= len ==> table[k'] == []
  {
    if table[len] != [] {
      k := len;
    } else {
      k := FirstNonEmptyLast(table, len - 1);
    }
  }

  /** No matches are found exactly when no prefix of length 1 to `len` is the start of an existing name. */
  lemma FirstMatchesEmpty(filename: string, existing: seq<string>, len: nat)
    requires len <= |filename|
    ensures FirstMatches(filename, existing, len) == [] <==>
      forall k :: 1 <= k <= len ==> Matches(existing, filename[..k]) == []
  {
    var table := MatchTable(filename, existing);
    FirstNonEmptyEmpty(table, len);
    assert forall k :: 1 <= k <= len ==> table[k] == Matches(existing, filename[..k]);
  }

  /**
   * The matches found, when there are any, belong to the longest prefix, of
   * length `len` or less, that any existing name starts with.
   */
  lemma FirstMatchesLongest(filename: string, existing: seq<string>, len: nat)
    requires len <= |filename|
    ensures FirstMatches(filename, existing, len) != [] ==>
      exists k :: 1 <= k <= len && FirstMatches(filename, existing, len) == Matches(existing, filename[..k])
        && forall k' :: k < k' <= len ==> Matches(existing, filename[..k']) == []
  {
    var table := MatchTable(filename, existing);
    if FirstNonEmpty(table, len) != [] {
      var k := FirstNonEmptyLast(table, len);
      assert forall k' :: k < k' <= len ==> table[k'] == Matches(existing, filename[..k']);
      assert table[k] == Matches(existing, filename[..k]);
    }
  }

  /** An alternative is an existing name that starts with a non-empty prefix of the name given, and the only one for that prefix. */
  lemma AlternativeIsUnique(filename: string, existing: seq<string>)
    ensures UniqueAlternative(filename, existing).Some? ==>
      exists k :: 1 <= k <= |filename| && Matches(existing, filename[..k]) == [UniqueAlternative(filename, existing).value]
        && forall k' :: k < k' <= |filename| ==> Matches(existing, filename[..k']) == []
    ensures UniqueAlternative(filename, existing).Some? ==> UniqueAlternative(filename, existing).value in existing
  {
    FirstMatchesLongest(filename, existing, |filename|);
    var m := FirstMatches(filename, existing, |filename|);
    if |m| == 1 {
      assert m == [m[0]];
      var k :| 1 <= k <= |filename| && m == Matches(existing, filename[..k]);
      MatchesMembers(existing, filename[..k]);
      assert m[0] in Matches(existing, filename[..k]);
    }
  }

  /** A name no existing name shares even the first character with has no alternative. */
  lemma NoSharedStart(filename: string, existing: seq<string>)
    requires filename != ""
    requires forall e :: e in existing ==> !StartsWith(e, filename[..1])
    ensures UniqueAlternative(filename, existing).None?
  {
    forall k | 1 <= k <= |filename|
      ensures Matches(existing, filename[..k]) == []
    {
      forall e | e in existing ensures !StartsWith(e, filename[..k]) {
        PrefixOfStart(e, filename, k);
      }
      MatchesNone(existing, filename[..k]);
    }
    FirstMatchesEmpty(filename, existing, |filename|);
  }

  /** A name starting with a prefix of `filename` starts with its first character. */
  lemma PrefixOfStart(e: string, filename: string, k: nat)
    requires 1 <= k <= |filename|
    ensures StartsWith(e, filename[..k]) ==> StartsWith(e, filename[..1])
  {
    if StartsWith(e, filename[..k]) {
      assert e[..1] == e[..k][..1];
    }
  }

  /** A name that exactly one existing name extends has that name as its alternative. */
  lemma SingleExtension(filename: string, existing: seq<string>, e: string)
    requires filename != ""
    requires Matches(existing, filename) == [e]
    ensures UniqueAlternative(filename, existing) == Some(e)
  {
    assert filename[..|filename|] == filename;
  }
}
