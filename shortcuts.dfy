/**
 * `check_for_possible_shortcuts_in_entered_tags(usertags, shortcuts)`: an
 * entered token made of digits stands for the shortcut tags with those
 * one-based numbers, read with Python's indexing (`0` is index `-1`, the
 * last shortcut); any other token is a tag itself; a token collected already
 * adds nothing.
 */
module Shortcuts {
  import opened Text

  function DigitValue(c: char): int
    requires IsDigit(c)
  {
    c as int - '0' as int
  }

  /** `shortcuts[int(c) - 1]` does not raise: `c` is a digit and `int(c) - 1` is a Python index of the list. */
  predicate ValidShortcut(c: char, n: nat) {
    IsDigit(c) && -(n as int) <= DigitValue(c) - 1 < n
  }

  /** `shortcuts[int(c) - 1]` */
  function ShortcutAt(shortcuts: seq<string>, c: char): string
    requires ValidShortcut(c, |shortcuts|)
  {
    var i := DigitValue(c) - 1;
    if i < 0 then shortcuts[|shortcuts| + i] else shortcuts[i]
  }

  predicate IsShortcutToken(token: string, shortcuts: seq<string>) {
    forall i :: 0 <= i < |token| ==> ValidShortcut(token[i], |shortcuts|)
  }

  /** The shortcut tags a token of valid digits stands for, in the order of its characters. */
  function Expansion(token: string, shortcuts: seq<string>): (r: seq<string>)
    requires IsShortcutToken(token, shortcuts)
    ensures |r| == |token|
    ensures forall i :: 0 <= i < |token| ==> r[i] == ShortcutAt(shortcuts, token[i])
    decreases |token|
  {
    if token == [] then []
    else
      var front := token[..|token| - 1];
      assert IsShortcutToken(front, shortcuts) by {
        forall i | 0 <= i < |front| ensures ValidShortcut(front[i], |shortcuts|) {
          assert front[i] == token[i];
        }
      }
      Expansion(front, shortcuts) + [ShortcutAt(shortcuts, token[|token| - 1])]
  }

  /** What one entered token adds to the tags collected so far. */
  function ExpandToken(found: seq<string>, token: string, shortcuts: seq<string>): seq<string> {
    if token in found then found
    else if IsShortcutToken(token, shortcuts) then found + Expansion(token, shortcuts)
    else found + [token]
  }

  function ExpandAll(usertags: seq<string>, shortcuts: seq<string>): seq<string>
    decreases |usertags|
  {
    if usertags == [] then []
    else ExpandToken(ExpandAll(usertags[..|usertags| - 1], shortcuts), usertags[|usertags| - 1], shortcuts)
  }

  /**
   * The character loop for one token. A non-digit raises `ValueError`, which
   * leaves the loop and collects the token; an index out of range raises
   * `IndexError`, which collects the token, after which the remaining
   * characters are skipped because the token is collected.
   */
  method ExpandOne(found0: seq<string>, token: string, shortcuts: seq<string>) returns (found: seq<string>)
    ensures found == ExpandToken(found0, token, shortcuts)
  {
    found := found0;
    var within: seq<string> := [];
    var valueError := false;
    var j := 0;
    while j < |token|
      invariant 0 <= j <= |token|
      invariant token in found0 ==> found == found0 && !valueError
      invariant token !in found0 && !valueError && found == found0 ==>
        IsShortcutToken(token[..j], shortcuts) && within == Expansion(token[..j], shortcuts)
      invariant token !in found0 && !(found == found0 && !valueError) ==>
        !IsShortcutToken(token, shortcuts) && found == found0 + [token] && !valueError
      invariant token !in found0 && valueError ==> j < |token| && !IsShortcutToken(token, shortcuts) && found == found0
    {
      var c := token[j];
      if token in found {
        j := j + 1;
        continue;
      }
      if !IsDigit(c) {
        valueError := true;
        break;
      }
      if ValidShortcut(c, |shortcuts|) {
        assert token[..j + 1] == token[..j] + [c];
        within := within + [ShortcutAt(shortcuts, c)];
      } else {
        found := found + [token];
      }
      j := j + 1;
    }
    if valueError {
      found := found + [token];
    } else if token !in found {
      assert token[..j] == token;
      found := found + within;
    }
  }

  /** `check_for_possible_shortcuts_in_entered_tags(usertags, shortcuts)` */
  method CheckForPossibleShortcuts(usertags: seq<string>, shortcuts: seq<string>) returns (found: seq<string>)
    ensures found == ExpandAll(usertags, shortcuts)
  {
    found := [];
    var i := 0;
    while i < |usertags|
      invariant 0 <= i <= |usertags|
      invariant found == ExpandAll(usertags[..i], shortcuts)
    {
      assert usertags[..i + 1][..i] == usertags[..i];
      found := ExpandOne(found, usertags[i], shortcuts);
      i := i + 1;
    }
    assert usertags[..i] == usertags;
  }

  /** A digit names a shortcut exactly when it is 1 to n, or 0 (the last) with at least one shortcut. */
  lemma ValidShortcutDigits(c: char, n: nat)
    requires IsDigit(c)
    ensures ValidShortcut(c, n) <==> (1 <= DigitValue(c) <= n) || (DigitValue(c) == 0 && n >= 1)
  {
  }

  /** `0` selects the last shortcut. */
  lemma ZeroIsLast(shortcuts: seq<string>)
    requires shortcuts != []
    ensures ShortcutAt(shortcuts, '0') == shortcuts[|shortcuts| - 1]
  {
  }

  /** An empty token adds nothing. */
  lemma EmptyTokenAddsNothing(found: seq<string>, shortcuts: seq<string>)
    ensures ExpandToken(found, "", shortcuts) == found
  {
  }

  /** What the collected tags are made of: entered tokens and shortcut tags, and every entered token is accounted for. */
  lemma {:induction false} ExpandAllFrom(usertags: seq<string>, shortcuts: seq<string>)
    ensures forall x :: x in ExpandAll(usertags, shortcuts) ==> x in usertags || x in shortcuts
    ensures forall k :: 0 <= k < |usertags| && !IsShortcutToken(usertags[k], shortcuts) ==> usertags[k] in ExpandAll(usertags, shortcuts)
    decreases |usertags|
  {
    if usertags != [] {
      var front := usertags[..|usertags| - 1];
      var last := usertags[|usertags| - 1];
      ExpandAllFrom(front, shortcuts);
      assert forall k :: 0 <= k < |front| ==> front[k] == usertags[k];
      var prev := ExpandAll(front, shortcuts);
      if last !in prev && IsShortcutToken(last, shortcuts) {
        var e := Expansion(last, shortcuts);
        forall x | x in e ensures x in shortcuts {
          var i :| 0 <= i < |e| && e[i] == x;
          assert ValidShortcut(last[i], |shortcuts|);
        }
      }
    }
  }

  /** The example of the documentation: `23` with shortcuts `bar folder1 baz` stands for `folder1 baz`. */
  lemma ShortcutExample(shortcuts: seq<string>, token: string)
    requires shortcuts == ["bar", "folder1", "baz"] && token == "23"
    ensures ExpandAll([token], shortcuts) == ["folder1", "baz"]
  {
    assert [token][..0] == [];
    assert ValidShortcut(token[0], 3) && ValidShortcut(token[1], 3);
    assert IsShortcutToken(token, shortcuts);
  }
}
