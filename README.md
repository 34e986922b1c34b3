# filetags: the tag-in-filename codec, modelled in Dafny

filetags stores tags in file names: `STEM -- TAG TAG ... .EXT`. This
project models three generations of the codec that reads and writes such
names, and the in-memory algorithms the current package builds on it.

- **The current package** (`filetags/__init__.py`):
  - `Codec` holds `contains_tag`, `extract_tags_from_filename`,
    `adding_tag_to_filename`, `removing_tag_from_filename` and
    `extract_tags_from_argument`. They rest on the lazy tag regex
    `(.+?) -- (.+?)(\.(\w+))??$` and the extension regex `(.*)\.(.*)$`.
  - `CodecProps` proves what those operations do on rendered names
    (`Name`: a stem, valid tags, an optional word-character extension;
    `Shaped` allows repeated tags, `WellFormed` asks for distinct ones).
    A valid tag has no space, no dot and no slash: the regex reads a dot
    as the start of an extension, and a slash moves the tags out of the
    base name (`a.txt` with the tag `x/y` becomes `a -- x/y.txt`, whose
    base name `y.txt` is untagged). This includes the add/remove round trip, idempotence and
    commutation. It also holds the findings.
  - `Edits` holds the tag loop of `handle_file`, with the `-tag` shorthand,
    groups of mutually exclusive tags and `item_contained_in_list_of_lists`.
  - `Counting` holds `add_tag_to_countdict`, a class whose dictionary
    changes in place.
  - `Shortcuts` holds `check_for_possible_shortcuts_in_entered_tags`.
  - `TopNine` holds `get_upto_nine_keys_of_dict_with_highest_value`.
  - `Queries` holds `filter_files_matching_tags`,
    `get_common_tags_from_files`, `get_unique_tags_from_filename` and
    `extract_iso_datestamp_from_filename`.
  - `Vocabulary` holds the line loop of
    `locate_and_parse_controlled_vocabulary`.
  - `Completer` holds `SimpleCompleter`.
  - `Tagtrees` and `Permutations` hold the link plan of `generate_tagtrees`,
    including `itertools.permutations`.
  - `Alternative` holds the prefix-shrinking loop of
    `find_unique_alternative_to_file`.
- **The stand-alone `filetags.py`** (`LegacyCodec`): the same regex matched
  on the whole argument, a remove that raises without an extension, and the
  add/remove loop of its `handle_file`. Its `contains_tag`,
  `extract_tags_from_filename` and `extract_tags_from_argument` are the
  current package's code matched on the whole argument, which
  `Codec.HasTag`, `Codec.TagsOf` and `Codec.ExtractTagsFromArgument`
  model. Its `SimpleCompleter` and `add_tag_to_countdict` are the same code
  as the current package's, and the same members model them.
- **The oldest `filetag.py`** (`OldestCodec`): the greedy regex
  `(.*) -- (.*)\.(.*)$`.
- **Shared definitions:** `Text` holds Python's `split`, `join`, `strip`,
  `rfind`, `startswith`, string order and `sorted`. `Paths` holds POSIX
  `basename`, `dirname` and `join`. `Wrappers` holds `Option`.

Directory listings, file contents, the `unique_tags` global and file-system
facts (is a directory, is a file, dry run) are parameters. Renames and links
are returned as values (`Action`, `Link`) rather than performed.

## Model

| member | source | states |
|---|---|---|
| Codec.Parse | filetags/__init__.py:134 | `re.match(FILE_WITH_TAGS_REGEX, name)`; its contract is `Codec.ParseSpec`: stem + ` -- ` + tag list + optional `.ext`, the minimal stem, and no match exactly when there is no separator with text after it |
| Codec.FirstBoundary | filetags/__init__.py:134 | the lazy stem group stops at the first ` -- ` at index 1 or later with text after it: the index found is such a separator and none comes before it, none at all when `None` |
| Codec.TagListAndExtension | filetags/__init__.py:134 | the text after the separator is the tag list followed by the optional extension; the tag list is non-empty; an extension is non-empty word characters |
| Codec.ParseSpec | filetags/__init__.py:134 | a match splits the name into stem + ` -- ` + tag list + optional `.ext`; the stem is non-empty and ends at the first boundary; the extension is word characters; no match exactly when no boundary exists |
| Codec.SplitAtLastDot | filetags/__init__.py:139 | the extension regex splits at the last dot: name == front + `.` + ext with no dot in ext; no match exactly when there is no dot |
| Codec.ExtractTagsFromArgument | filetags/__init__.py:498-509 | `False` (`None`) exactly for the empty argument; otherwise pieces without spaces whose join by `' '` is the argument (the same code as filetags.py:301-313) |
| Codec.IsTagged | filetags/__init__.py:326-330 | whether the tag regex matches the name as given (`contains_tag` without a tag; also filetags.py:188-191); `CodecProps.IsTaggedRender` states it: exactly when the name has tags |
| Codec.TagsOf | filetags.py:200-217 | `extract_tags_from_filename` matched on the whole argument: the tag list split on spaces, `[]` without a match; `CodecProps.TagsOfRender` states that a shaped name gives back exactly its tags |
| Codec.HasTag | filetags/__init__.py:312-335 | `contains_tag` on the name as given, which is filetags.py:172-197; `CodecProps.HasTagRender` states it: membership among the tags of a shaped name, or being tagged for the empty tag |
| Codec.ContainsTag | filetags/__init__.py:312-335 | `contains_tag(filename, tagname)`, matched on the base name; `CodecProps.ContainsTagRender` gives the same under any directory |
| Codec.ExtractTags | filetags/__init__.py:338-354 | `extract_tags_from_filename`; `CodecProps.ExtractTagsRender` states that it returns exactly the tags of the base name, and `[]` for an untagged one |
| Codec.InsertTag | filetags/__init__.py:428-457 | the base name `adding_tag_to_filename` builds for a missing tag; `CodecProps.InsertTagShape` and `CodecProps.InsertTagRender` state it |
| Codec.AddTag | filetags/__init__.py:416-457 | `adding_tag_to_filename`; `CodecProps.AddTagEffect` states it (unchanged when present, otherwise the tag appended last), with the round trip in `CodecProps.RemoveAfterAdd` and the misplaced tag in `CodecProps.AddTagMisplacesTag` |
| Codec.AddTagCorrected | filetags/__init__.py:416-457 | the corrected add of the findings; `CodecProps.AddTagCorrectedContainsTag` states that the tag ends where `contains_tag` reads it, and `CodecProps.AddTagCorrectedAgrees` that it is `adding_tag_to_filename` on well-formed names |
| Codec.RemoveTag | filetags/__init__.py:460-495 | `removing_tag_from_filename`; `CodecProps.RemoveTagShaped` states it: every occurrence dropped, the others in order, the separator gone with the last tag, except that a name holding only two or more copies of the tag keeps ` -- ` with no tag behind it (the finding) |
| Codec.RemoveTagCorrected | filetags/__init__.py:460-495 | the corrected removal of the findings; `CodecProps.RemoveTagCorrectedEffect` states that the separator goes whenever no tag is left, and `CodecProps.RemoveTagCorrectedAgrees` that it is `removing_tag_from_filename` on well-formed names |
| CodecProps.ParseUntagged | filetags/__init__.py:134 | a well-formed name without tags does not match the tag regex |
| CodecProps.ParseRender | filetags/__init__.py:134 | a tagged well-formed name matches with its stem, its joined tags and its extension, and its tags read back exactly |
| CodecProps.IsTaggedRender | filetags/__init__.py:312-329 | a shaped name is tagged exactly when it has tags |
| CodecProps.TagsOfRender | filetags.py:200-217 | a shaped name, matched as a whole, gives back exactly its tags and holds no slash |
| CodecProps.HasTagRender | filetags/__init__.py:312-335 | `contains_tag` on a shaped base name: membership among its tags, or having any tag for the empty tag |
| CodecProps.ContainsTagRender | filetags/__init__.py:312-335 | the same for the name under any directory: only the base name is matched |
| CodecProps.ExtractTagsRender | filetags/__init__.py:338-354 | `extract_tags_from_filename` under any directory gives exactly the tags of the base name |
| CodecProps.ContainsTagExampleTwoTags | filetags/__init__.py:312-335 | `Some file -- foo bar.jpeg` contains `foo` and `bar` but not `foo bar` |
| CodecProps.ContainsTagExampleOneTag | filetags/__init__.py:312-335 | `Some file -- foobar.jpeg` contains `foobar` but not `foo` |
| CodecProps.SplitAtLastDotRender | filetags/__init__.py:139 | the last dot of a well-formed name is the one before its extension; there is none without an extension |
| CodecProps.InsertTagRender | filetags/__init__.py:431-457 | the base name built for a well-formed name lacking the tag is that name with the tag appended as its last tag |
| CodecProps.InsertTagShape | filetags/__init__.py:431-457 | that base name is the name without its extension, then ` -- ` (untagged) or ` ` (tagged), the tag, and the extension |
| CodecProps.AddTagEffect | filetags/__init__.py:416-457 | on a well-formed base name under any directory: unchanged when the tag is present, otherwise the directory joined with the name whose last tag is the new one |
| CodecProps.AddTagUntaggedDotted | filetags/__init__.py:431-438 | an untagged name with a dot gets ` -- t` inserted before its last dot |
| CodecProps.AddTagTaggedDotted | filetags/__init__.py:446-455 | a tagged name lacking the tag gets ` t` inserted before its last dot |
| CodecProps.RemoveTagPresent | filetags/__init__.py:472-495 | removing a present tag from a shaped name (tags may repeat): stem and extension alone when the tag list had one entry, otherwise the separator and the other tags joined by spaces, which is empty when every tag was a copy of the removed one |
| CodecProps.RemoveTagShaped | filetags/__init__.py:460-495 | removing a non-empty tag from a shaped name drops every occurrence, keeps the others in order and drops the separator with the last tag, except when the name held nothing but two or more copies of the tag: then stem + ` -- ` + extension; an absent tag changes nothing |
| CodecProps.RemoveTagEffect | filetags/__init__.py:460-495 | on a well-formed name (distinct tags), where the exception above cannot arise: every occurrence dropped, the others in order, the separator gone when no tag is left; an absent tag changes nothing |
| CodecProps.RemoveRepeatedSoleTag | filetags/__init__.py:489-495 | as written: `a -- x x.txt` without `x` is `a -- .txt`, which the regex reads as the tag `.txt` and no extension |
| CodecProps.RemoveTagCorrectedEffect | filetags/__init__.py:460-495 | the corrected removal on a shaped name: every occurrence dropped, the others in order, the separator gone whenever no tag is left |
| CodecProps.RemoveTagCorrectedDiffers | filetags/__init__.py:489-495 | the corrected removal differs from the one as written exactly on tagged names whose two or more tags are all the removed one |
| CodecProps.RemoveTagCorrectedAgrees | filetags/__init__.py:460-495 | on well-formed names the corrected removal is `removing_tag_from_filename` |
| CodecProps.RemoveRepeatedSoleTagCorrected | filetags/__init__.py:489-495 | corrected, `a -- x x.txt` without `x` is the untagged `a.txt` |
| CodecProps.RemoveEmptyTag | filetags/__init__.py:460-495 | the empty tag removes a sole tag and leaves every other name alone |
| CodecProps.RemoveAfterAdd | filetags/__init__.py:416-495 | removing a valid tag just added to a well-formed name that lacked it gives the name back |
| CodecProps.AddTagIdempotent | filetags/__init__.py:416-457 | adding a tag twice is adding it once |
| CodecProps.RemoveTagIdempotent | filetags/__init__.py:460-495 | removing a tag twice is removing it once |
| CodecProps.RemoveTagCommutes | filetags/__init__.py:460-495 | removing two tags gives the same name in either order |
| CodecProps.AddTagMisplacesTag | filetags/__init__.py:431-439 | as written, `a.b-c` plus `x` gives `a -- x.b-c`, which does not contain `x`, and adding `x` again gives `a -- x x.b-c` |
| CodecProps.AddTagToDotFileLosesTag | filetags/__init__.py:431-439 | as written, `.bashrc` plus `x` gives ` -- x.bashrc`, which does not contain `x` |
| CodecProps.InsertTagCorrectedRender | filetags/__init__.py:431-457 | the corrected base name agrees with the written one on well-formed names |
| CodecProps.AddTagCorrectedAgrees | filetags/__init__.py:416-457 | the corrected add agrees with `adding_tag_to_filename` on every well-formed base name under any directory |
| CodecProps.InsertTagCorrectedUntagged | filetags/__init__.py:431-440 | the corrected base name of any non-empty untagged name carries the tag |
| CodecProps.InsertTagCorrectedTagged | filetags/__init__.py:446-457 | the corrected base name of any tagged name carries the tag |
| CodecProps.InsertTagCorrectedNoSlash | filetags/__init__.py:428-457 | the corrected base name stays a base name |
| CodecProps.AddTagCorrectedContainsTag | filetags/__init__.py:416-457 | for every non-empty base name, the corrected add leaves the tag where `contains_tag` finds it and keeps the directory |
| CodecProps.AddTagCorrectedIdempotent | filetags/__init__.py:416-457 | the corrected add is idempotent on every name |
| CodecProps.AddTagCorrectedExamples | filetags/__init__.py:416-457 | the corrected add turns `a.b-c` into `a.b-c -- x` and `.bashrc` into `.bashrc -- x` |
| Edits.FirstGroupIndex | filetags/__init__.py:539-552 | the index of the first group holding the item; no earlier group holds it, and no group at all when `None` |
| Edits.FirstGroupContaining | filetags/__init__.py:539-552 | `(None, None)` exactly when no group holds the item; otherwise a group of the list that holds it |
| Edits.ItemContainedInListOfLists | filetags/__init__.py:539-552 | the loop returns the first group holding the item |
| Edits.Conflicting | filetags/__init__.py:864-865 | the tags common to the name and the group, each once |
| Edits.RemoveEach | filetags/__init__.py:867-868 | `removing_tag_from_filename` for each conflicting tag in turn; `Edits.RemoveEachRender` states it as a filter of the tag list |
| Edits.ApplyTag | filetags/__init__.py:844-871 | one step of the tag loop, adding with `adding_tag_to_filename`; `Edits.ApplyTagRender` states it as `EditTag` on the tag list |
| Edits.FoldEdits | filetags/__init__.py:841-871 | the whole tag loop on the base name; `Edits.FoldEditsRender` states it as `EditTags` on the tag list |
| Edits.EditTag | filetags/__init__.py:844-871 | the edit of one entered tag on a tag list, the reference for `ApplyTag`; `Edits.EditTagMinus`, `Edits.EditTagPlain` and `Edits.EditTagUnique` state its cases |
| Edits.EditTags | filetags/__init__.py:841-871 | the edits of all entered tags on a tag list; `Edits.EditTagsRemove` states the `do_remove` case |
| Edits.EditTagsRemove | filetags/__init__.py:844-847 | with `do_remove`, the edits drop every listed tag and keep the others in order |
| Edits.EditTagMinus | filetags/__init__.py:848-849 | `-x` removes `x` and touches no other tag |
| Edits.EditTagPlain | filetags/__init__.py:853-857 | a tag of no group is appended once, unless already present |
| Edits.EditTagUnique | filetags/__init__.py:858-870 | a tag of a group becomes the last tag and the only one of the first group holding it; tags outside that group stay |
| Edits.RemoveEachRender | filetags/__init__.py:867-868 | removing each conflicting tag in turn from a well-formed name filters them out of its tags |
| Edits.RemoveEachOrder | filetags/__init__.py:865-868 | the unspecified order of the set of conflicting tags does not change the result |
| Edits.ApplyTagRender | filetags/__init__.py:844-871 | one step of the tag loop on a well-formed base name is the edit on its tag list |
| Edits.FoldEditsRender | filetags/__init__.py:841-871 | the whole tag loop on a well-formed base name is the edits on its tag list, and the name stays well formed |
| Edits.FoldMisplacesTag | filetags/__init__.py:853-857 | as written, the tag loop turns `a.b-c` tagged with `x` into `a -- x.b-c`, which does not contain `x` |
| Edits.FoldOnePlain | filetags/__init__.py:853-857 | the tag loop over one tag that no group holds and that is not `-x` is `adding_tag_to_filename` itself |
| Edits.RemoveConflicting | filetags/__init__.py:867-868 | the loop over the conflicting tags removes each in turn |
| Edits.HandleTag | filetags/__init__.py:845-871 | the loop body computes one step of the fold |
| Edits.HandleFile | filetags/__init__.py:813-892 | with `do_filter`, a link into the filter directory (none in a dry run) and no result; otherwise the directory joined with the folded base name, and a rename only when the base name changed and this is not a dry run |
| Counting.Increment | filetags/__init__.py:907-910 | an existing tag counts one more, a new tag starts at 1, and every other key is unchanged |
| Counting.CountsAreOccurrences | filetags/__init__.py:895-912 | counting a list of tags from an empty dictionary gives each tag its number of occurrences, and no other keys |
| Counting.TagCounts.AddTag | filetags.py:367-385 | the dictionary is updated in place to `Increment` of its old value (the same code as filetags/__init__.py:895-912) |
| Shortcuts.Expansion | filetags/__init__.py:1484-1506 | a token of valid digits stands for the shortcut tags at `int(c) - 1`, one per character, in order |
| Shortcuts.ExpandToken | filetags/__init__.py:1480-1510 | what one token adds to the tags found; `Shortcuts.ExpandOne` computes it with the character loop and `Shortcuts.EmptyTokenAddsNothing` states the empty token |
| Shortcuts.ExpandAll | filetags/__init__.py:1465-1512 | the tokens expanded in order; `Shortcuts.CheckForPossibleShortcuts` computes it and `Shortcuts.ExpandAllFrom` states what it collects |
| Shortcuts.ExpandOne | filetags/__init__.py:1481-1510 | the character loop for one token computes what the token adds: nothing when collected already, its expansion when every digit is valid, the token itself otherwise |
| Shortcuts.CheckForPossibleShortcuts | filetags/__init__.py:1465-1512 | the token loop computes the expansion of all tokens in order |
| Shortcuts.ValidShortcutDigits | filetags/__init__.py:1493 | a digit selects a shortcut exactly when it is 1 to n, or 0 with at least one shortcut |
| Shortcuts.ZeroIsLast | filetags/__init__.py:1493 | `0` selects the last shortcut |
| Shortcuts.EmptyTokenAddsNothing | filetags/__init__.py:1484-1506 | an empty token adds nothing |
| Shortcuts.ExpandAllFrom | filetags/__init__.py:1480-1512 | every collected tag is an entered token or a shortcut, and every token that is not all valid digits is collected |
| Shortcuts.ShortcutExample | filetags/__init__.py:1465-1512 | `23` with shortcuts `bar folder1 baz` gives `folder1 baz` |
| TopNine.SortByCount | filetags/__init__.py:1530 | the entries by falling count, a permutation of the dictionary's entries |
| TopNine.SortByCountStable | filetags/__init__.py:1530 | the sort is stable: the entries of every count come out in their input order |
| TopNine.WithoutOmitted | filetags/__init__.py:1533-1535 | exactly the entries whose key is not omitted, in order |
| TopNine.FirstNine | filetags/__init__.py:1537 | `[:9]`: a prefix of at most nine, the whole list when shorter |
| TopNine.UptoNineKeys | filetags/__init__.py:1515-1537 | the function itself; `TopNine.UptoNineShape`, `TopNine.UptoNineAll` and `TopNine.UptoNineDominates` state its result |
| TopNine.UptoNineShape | filetags/__init__.py:1515-1537 | at most nine keys, none omitted, all keys of the dictionary, in alphabetical order |
| TopNine.UptoNineAll | filetags/__init__.py:1515-1537 | fewer than nine keys come back only when every non-omitted key does |
| TopNine.UptoNineDominates | filetags/__init__.py:1515-1537 | a returned key counts at least as much as every non-returned, non-omitted key |
| Queries.FilterFilesMatchingTags | filetags/__init__.py:1637-1646 | exactly the files whose tags include all the given tags |
| Queries.FilterKeepsOrder | filetags/__init__.py:1646 | the files kept are a subsequence of the listing |
| Queries.Intersection | filetags/__init__.py:1687 | `set.intersection`: the elements of every set; `None` for no sets |
| Queries.TagSets | filetags/__init__.py:1683-1685 | one tag set per file, in order |
| Queries.CommonTags | filetags/__init__.py:1675-1687 | a tag is common exactly when every file carries it; no files raise |
| Queries.GetCommonTagsFromFiles | filetags/__init__.py:1675-1687 | the loop computes the intersection of the files' tag sets, `None` exactly for no files, holding exactly the tags every file carries |
| Queries.GetUniqueTagsFromFilename | filetags/__init__.py:522-536 | the tags of the name that some group holds, one copy per group holding them |
| Queries.UniqueTagsLoop | filetags/__init__.py:531-535 | the two nested loops compute that list |
| Queries.UniqueTagsMembers | filetags/__init__.py:522-536 | a tag is reported exactly when the name carries it and some group holds it |
| Queries.HasDatestamp | filetags/__init__.py:143 | `YYYY_MM_DD_PATTERN` matching at the start; `Queries.ExtractIsoDatestamp` returns `[]` exactly when it fails |
| Queries.ExtractIsoDatestamp | filetags/__init__.py:915-925 | `[]` exactly when the name does not start with `YYYY_MM_DD_PATTERN` (filetags/__init__.py:143); otherwise year, month and day that rebuild the first ten characters |
| Queries.DatestampRoundTrip | filetags/__init__.py:143 | a name built from a valid stamp and separator gives the stamp back |
| Vocabulary.LineTags | filetags/__init__.py:1403-1412 | the tags one line adds; `Vocabulary.LineTagsJoin` and `Vocabulary.PlainLine` state them |
| Vocabulary.LineGroups | filetags/__init__.py:1403-1407 | the group one line adds; `Vocabulary.GroupsAreLineTags` states it |
| Vocabulary.VocabularyTags | filetags/__init__.py:1402-1412 | the tag list of all lines; `Vocabulary.ParseVocabulary` computes it, and `Vocabulary.VocabularyTagsFromLines` and `Vocabulary.VocabularyTagsNoSpace` state it |
| Vocabulary.VocabularyGroups | filetags/__init__.py:1402-1407 | the groups of all lines; `Vocabulary.ParseVocabulary` computes them and `Vocabulary.GroupTagsListed` states that their tags are listed |
| Vocabulary.ParseVocabulary | filetags/__init__.py:1397-1412 | the reading loop returns the tags of all lines in order and `unique_tags` extended by the groups of the lines |
| Vocabulary.ReadLine | filetags/__init__.py:1403-1412 | one raw line appends its tags and its group, if any |
| Vocabulary.VocabularyTagsFromLines | filetags/__init__.py:1402-1412 | the tags read are exactly those some line contributes |
| Vocabulary.VocabularyTagsNoSpace | filetags/__init__.py:1404-1412 | no tag read holds a space |
| Vocabulary.LineTagsJoin | filetags/__init__.py:1403-1412 | a line's tags, joined by spaces, are the stripped line |
| Vocabulary.GroupsAreLineTags | filetags/__init__.py:1404-1407 | every group read is the tag list of a line, with at least two tags |
| Vocabulary.GroupTagsListed | filetags/__init__.py:1407-1410 | every tag of a group is in the tag list too |
| Vocabulary.PlainLine | filetags/__init__.py:1411-1412 | a line without a space adds its stripped text, possibly empty, as one tag and no group |
| Completer.MatchList | filetags/__init__.py:290-298 | all options for an empty text; otherwise exactly the non-empty options starting with the text |
| Completer.ItemAt | filetags/__init__.py:302-305 | `matches[state]` with Python indexing; `None` exactly when it raises `IndexError` |
| Completer.MatchListSorted | filetags/__init__.py:280-298 | the match list of sorted options is sorted |
| Completer.SimpleCompleter.constructor | filetags.py:144-146 | the options are the sorted given options (the same code as filetags/__init__.py:280-286) |
| Completer.SimpleCompleter.Complete | filetags.py:148-169 | at state 0 the match list is rebuilt for the text; the answer is its `state`-th item; options unchanged (the same code as filetags/__init__.py:288-309) |
| Completer.CompletionExample | filetags/__init__.py:288-298 | `fo` among `bar fob foo` completes to `fob foo`; the empty text to all |
| Permutations.Perms | filetags/__init__.py:1866 | `itertools.permutations(tags, d)`; `Permutations.PermsCount`, `Permutations.PermsMembers` and `Permutations.PermsExample` state it |
| Permutations.PermsCount | filetags/__init__.py:1866 | `itertools.permutations(tags, d)` yields n(n-1)...(n-d+1) tuples |
| Permutations.PermsMembers | filetags/__init__.py:1866 | the permutations are exactly the sequences of d positions, each item at most as often as it occurs |
| Permutations.PermsExample | filetags/__init__.py:1866 | `a b` gives `a`, `b` at depth 1 and `a b`, `b a` at depth 2 |
| Tagtrees.TagsOfFiles | filetags/__init__.py:1821 | one tag list per file, as `extract_tags_from_filename` reads it |
| Tagtrees.PermutationLinks | filetags/__init__.py:1866-1892 | one link per permutation, into `root/p1/.../pd/basename`, in order |
| Tagtrees.LinksByDepth | filetags/__init__.py:1864-1892 | the links of each depth 1 to `maxdepth` |
| Tagtrees.MissingLinks | filetags/__init__.py:1894-1919 | the `no-...` links of a file; `Tagtrees.MissingLinksMembers` states them |
| Tagtrees.FileLinks | filetags/__init__.py:1838-1919 | the links one file asks for; `Tagtrees.LinkFile` computes them, and `Tagtrees.UntaggedFileLinks`, `Tagtrees.DepthLinksMembers` and `Tagtrees.DepthLinksCount` state them |
| Tagtrees.LinkPlan | filetags/__init__.py:1829-1919 | the links of all files; `Tagtrees.LinkFiles` computes it, and `Tagtrees.LinkPlanMembers`, `Tagtrees.LinkPlanCount` and `Tagtrees.LinkPlanFlatten` state it |
| Tagtrees.GenerateTagtrees | filetags/__init__.py:1821-1919 | the links created are the plan (none in a dry run), and `num_of_links` is its length either way |
| Tagtrees.LinkFiles | filetags/__init__.py:1829-1919 | the file loop computes the plan of the files in order, and counts it |
| Tagtrees.LinkFile | filetags/__init__.py:1838-1919 | the body of the file loop computes the links of one file |
| Tagtrees.PermutationLoop | filetags/__init__.py:1866-1892 | the permutation loop links into each permutation's directory |
| Tagtrees.MissingLoop | filetags/__init__.py:1895-1919 | the group loop links into `no-g1-...-gk` for each group that shares no tag, skipping the default one |
| Tagtrees.UntaggedFileLinks | filetags/__init__.py:1838-1856 | an untagged file gets no link when untagged files are ignored, otherwise one in the root or the given subdirectory |
| Tagtrees.DepthLinksMembers | filetags/__init__.py:1864-1892 | a tagged file's tagtree links are exactly one per permutation of its tags of depth 1 to `maxdepth` |
| Tagtrees.DepthLinksCount | filetags/__init__.py:1864-1892 | and their number is n + n(n-1) + ... up to `maxdepth` |
| Tagtrees.MissingLinksMembers | filetags/__init__.py:1894-1919 | the `no-...` links are exactly those of the non-default groups that share no tag with the file |
| Tagtrees.TeststringsSkipped | filetags/__init__.py:1899-1900 | the default group `teststring1 teststring2` never yields a link |
| Tagtrees.LinkPlanMembers | filetags/__init__.py:1829-1919 | a link is planned exactly when some file asks for it |
| Tagtrees.LinkPlanCount | filetags/__init__.py:1829-1919 | `num_of_links` is the sum of the files' link counts |
| Tagtrees.LinkPlanFlatten | filetags/__init__.py:1830-1919 | the plan is the files' links one after the other |
| Alternative.Matches | filetags/__init__.py:620-623 | the existing names starting with the prefix, in listing order |
| Alternative.MatchesMembers | filetags/__init__.py:620-623 | a name matches exactly when it exists and starts with the prefix |
| Alternative.MatchLoop | filetags/__init__.py:620-623 | the inner loop collects those matches |
| Alternative.UniqueAlternative | filetags/__init__.py:617-635 | the alternative found; `Alternative.FindUniqueAlternative` computes it and `Alternative.AlternativeIsUnique` states it |
| Alternative.FindUniqueAlternative | filetags/__init__.py:617-635 | the prefix-shrinking loop gives the single match of the longest prefix that has any, or `False` (`None`) |
| Alternative.FirstMatchesEmpty | filetags/__init__.py:619-629 | no matches are found exactly when no prefix of length 1 to n starts an existing name |
| Alternative.FirstMatchesLongest | filetags/__init__.py:619-629 | matches found are those of the longest such prefix |
| Alternative.AlternativeIsUnique | filetags/__init__.py:631-635 | an alternative is an existing name, the only match of the longest prefix that has matches |
| Alternative.NoSharedStart | filetags/__init__.py:617-635 | a name whose first character starts no existing name has no alternative |
| Alternative.SingleExtension | filetags/__init__.py:617-635 | a name that exactly one existing name extends has that name as its alternative |
| LegacyCodec.LegacyAddTag | filetags.py:220-260 | on a name without a slash, the legacy add is the current package's add |
| LegacyCodec.LegacyRemoveTag | filetags.py:263-298 | the legacy remove, `None` for the `TypeError`; `LegacyCodec.LegacyRemoveTagAgrees` and `LegacyCodec.LegacyRemoveTagEffect` state it |
| LegacyCodec.LegacyRemoveTagAgrees | filetags.py:263-298 | the legacy remove raises exactly when the tag is present and the name has no extension; otherwise, without a slash, it is the current remove |
| LegacyCodec.WholePathExample | filetags.py:188-217 | matched on the whole path, `dir -- x/file.txt` carries the tag `x/file`; matched on its base name it carries none |
| LegacyCodec.LegacyAddTagEffect | filetags.py:234-260 | on a well-formed name: unchanged when the tag is present, otherwise the tag becomes the last one |
| LegacyCodec.LegacyRemoveTagEffect | filetags.py:277-298 | on a well-formed name (distinct tags): every occurrence is dropped and the others keep their order, except that a present tag raises without an extension |
| LegacyCodec.LegacyRemoveRepeatedSoleTag | filetags.py:286-298 | the legacy remove has the same finding: `a -- x x.txt` without `x` is `a -- .txt`, tagged `.txt` |
| LegacyCodec.LegacyRemoveAfterAdd | filetags.py:220-298 | removing a tag just added to a well-formed name with an extension gives it back |
| LegacyCodec.LegacyRemoveAfterAddRaises | filetags.py:290-298 | without an extension, that removal raises |
| LegacyCodec.LegacyRemoveRaisesExample | filetags.py:290-298 | `notes -- x` minus `x` raises, where the current package gives `notes` |
| LegacyCodec.LegacyFold | filetags.py:350-355 | the tag loop of the legacy `handle_file`; `LegacyCodec.LegacyFoldRender` states it as `LegacyEditTags` on the tag list |
| LegacyCodec.LegacyEditTagsRemove | filetags.py:350-355 | removing the edits one by one drops all of them and keeps the order of the others |
| LegacyCodec.LegacyFoldRender | filetags.py:350-355 | on a well-formed name the loop edits its tag list (removals assuming an extension), and the name stays well formed |
| LegacyCodec.LegacyFoldAbsent | filetags.py:350-353 | removing tags the name lacks leaves it alone |
| LegacyCodec.LegacyFoldRaised | filetags.py:350-353 | once a removal has raised, the loop raises |
| LegacyCodec.LegacyFoldRaises | filetags.py:350-353 | removing from a name without an extension raises at the first tag it carries |
| LegacyCodec.LegacyHandleFile | filetags.py:326-364 | directories and missing files are skipped; otherwise a rename to the folded name, even when it is the same name, unless this is a dry run; `None` when a removal raises |
| OldestCodec.LastSeparatorBelow | filetag.py:46 | the last ` -- ` starting below the bound, or none |
| OldestCodec.OldParse | filetag.py:46 | `re.match` of the greedy regex; `OldestCodec.OldParseSpec` and `OldestCodec.OldTaggedIff` state it |
| OldestCodec.OldParseSpec | filetag.py:46 | a match splits the name into stem + ` -- ` + tag list + `.` + extension; there is no dot in the extension and no later separator in the tag list |
| OldestCodec.OldTaggedIff | filetag.py:46 | a name is tagged exactly when some ` -- ` is followed later by a dot |
| OldestCodec.GreedyExample | filetag.py:46 | `a -- b -- c.txt` has stem `a -- b` and the single tag `c` |
| OldestCodec.OldTagsOf | filetag.py:120-127 | the tag list of the greedy match split on spaces, `[]` without a match; `OldestCodec.OldAddUntagged` and the parse examples state what it reads |
| OldestCodec.OldHasTag | filetag.py:102-127 | `contains_tag`, matched on the whole name; `OldestCodec.OldAddTagged` and `OldestCodec.OldRemoveTagEffect` state what it reports |
| OldestCodec.OldAddTag | filetag.py:130-166 | the add raises (`None`) exactly for an untagged name without a dot |
| OldestCodec.OldAddUntagged | filetag.py:144-151 | an untagged name with a dot gets ` -- t` before its last dot, and then `t` is its only tag |
| OldestCodec.OldAddTaggedShape | filetag.py:158-166 | a tagged name lacking the tag gets ` t` before its last dot |
| OldestCodec.OldAddTagged | filetag.py:153-166 | the result carries the tag |
| OldestCodec.OldRemoveTag | filetag.py:169-199 | `removing_tag_from_filename`; `OldestCodec.OldRemoveTagEffect` states it |
| OldestCodec.OldRemoveTagEffect | filetag.py:169-199 | removing: unchanged when absent, stem and extension when the tag list had one entry, otherwise the separator and the other tags, which read back in order when some are left (none are when every tag was a copy of the removed one) |
| OldestCodec.OldRemoveAfterAdd | filetag.py:130-199 | removing a tag just added to an untagged name with a dot gives the name back |
| OldestCodec.OldRemoveRetagsExample | filetag.py:169-199 | removing `c` from `a -- b -- c.txt` leaves `a -- b.txt`, which is tagged with `b` |
| Paths.BaseName | filetags/__init__.py:429 | `os.path.basename`: the text after the last slash |
| Paths.DirName | filetags/__init__.py:428 | `os.path.dirname`: the text up to the last slash, trailing slashes removed unless it is all slashes |
| Paths.JoinPathSplits | filetags/__init__.py:428-457 | joining a directory and a base name and splitting again gives both back |
| Text.Split | filetags/__init__.py:334 | `str.split(c)`: at least one piece, none holding `c` |
| Text.JoinSplit | filetags/__init__.py:334 | joining the pieces of a split gives the text back |
| Text.SplitJoin | filetags/__init__.py:494-495 | pieces without the separator, joined, split back into those pieces |
| Text.WithoutCommutes | filetags/__init__.py:495 | dropping two values commutes |
| Text.SortStrings | filetags/__init__.py:281 | `sorted`: an ordered permutation |

## Left out

- Line feeds: names are assumed to hold none, since the regex `.` and `$` treat them specially. This is not a `requires`.
- `\w` is ASCII letters, digits and `_`. That is exact for the Python 2 `filetags.py`; Python 3 also admits other Unicode word characters.
- `int(c)` in the shortcut loop accepts only ASCII digits here. Python 3 also reads other Unicode decimal digits.
- Queries.ExtractIsoDatestamp: `\d` in `YYYY_MM_DD_PATTERN` accepts only ASCII digits here. The Python 3 pattern also accepts every other Unicode decimal digit, so for a name such as `٢٠٢٣-01-05 x` the source returns the groups and the model returns `[]`.
- Set order: `list(set(...).intersection(...))` has no fixed order. The model lists each tag once, and `Edits.RemoveEachOrder` shows the order cannot change the result.
- `get_common_tags_from_files` returns a list made from a set; the model returns the set.
- File-system I/O, passed in as parameters instead:
  - `os.walk` and `get_files_of_directory`: listings are parameters.
  - `os.path.isdir`, `os.path.isfile` and `os.path.abspath` (`split_up_filename`): the facts and the absolute directory are parameters.
  - `os.rename`, `create_link` and `os.makedirs`: returned as actions and links.
  - The upward search for `.filetags` and reading it: its lines are a parameter.
- Logging, printing, colours, `error_exit` and `main`, argument parsing, `ask_for_tags` and readline registration are user-interface plumbing.
- Symlink propagation (`handle_file_and_symlink_source_if_found` and its helpers) would need a model of a file system with links.
- Tag gardening (`find_similar_tags` via difflib, percentages in floating point) and `get_files_with_metadata` (time stamps) are left out.
- `extract_tags_from_path`, `get_tags_from_files_and_subfolders` and the caches are left out.
- `generate_tagtrees`:
  - the tags counted over the whole directory are not modelled;
  - the vocabulary-file link is not modelled;
  - the creation of empty directories is not modelled;
  - the exit when there are no files is not modelled;
  - the `FileExistsError` of a duplicate link does not change `num_of_links` or the plan, since the link is attempted either way.
- Tagtrees.GenerateTagtrees: the file names are taken to be absolute and normalised already, and each is the source of its links as given. The source links from `os.path.join(os.path.abspath(os.path.dirname(f)), os.path.basename(f))` (`split_up_filename`). For a relative name, such as a base name from the non-recursive listing, that is the absolute form, which the model does not compute.
- `find_unique_alternative_to_file` runs over a given listing; reading the directory of the name is I/O.
- Completer.SimpleCompleter.Complete: requires a call with `state == 0` before any other. Without one, `self.matches` does not exist and the source raises `AttributeError`.
- Edits.HandleFile: requires non-empty tags unless removing, because `tagname[0]` raises `IndexError` on the empty tag.
- Counting.TagCounts: the dictionary is a `map`, which keeps no insertion order. A Python dictionary does, and `sorted` in `get_upto_nine_keys_of_dict_with_highest_value` (filetags/__init__.py:1530) keeps that order among tags of equal count, which decides the ninth place on a tie. `TopNine` takes the dictionary as a list of entries in that order instead, and the counted `map` does not supply it.
- OldestCodec.OldRemoveTagEffect: states the result for a tag list with two tags or more through `Join` and its read-back, not as a `Name`, because the greedy regex can make the stem itself hold ` -- `.
- vktag.py and the `query_folder` of filetag.py refer to undefined regexes. filetags/register_filetags_for_send_to_folder.py only writes Windows shortcuts. Neither is part of this model.

## Findings

| source | as written | input that shows it | evidently intended | confidence | as-written member | corrected member |
|---|---|---|---|---|---|---|
| filetags/__init__.py:431-457 | `adding_tag_to_filename` inserts the new tag before the last dot of the base name, although the tag regex only recognises `.` + word characters at the end as an extension | `a.b-c` plus `x` gives `a -- x.b-c`, whose tag is `x.b-c`: `contains_tag` is false, and adding `x` again gives `a -- x x.b-c` | the tag lands where `contains_tag` reads it: `a.b-c -- x` | high (proved; not executed) | CodecProps.AddTagMisplacesTag | CodecProps.AddTagCorrectedContainsTag |
| filetags/__init__.py:431-439 | an untagged dot file splits at its only dot, leaving the stem empty | `.bashrc` plus `x` gives ` -- x.bashrc`, which the lazy regex (non-empty stem) does not match | `.bashrc -- x` | high (proved; not executed) | CodecProps.AddTagToDotFileLosesTag | CodecProps.AddTagCorrectedExamples |
| filetags/__init__.py:489-495 | `len(tags) < 2` counts the tags before the removal, so a name whose tags are all copies of the removed one keeps the separator | removing `x` from `a -- x x.txt` gives `a -- .txt`, which the regex reads as tagged `.txt` with no extension; filetags.py:290 has the same test | `a.txt`: the separator goes when no tag is left | high (proved; not executed) | CodecProps.RemoveRepeatedSoleTag | CodecProps.RemoveTagCorrectedEffect |
| filetags.py:290-298 | `u'.' + extension` where the extension group is `None` | removing `x` from `notes -- x` raises `TypeError` | `notes`, as the current package does (filetags/__init__.py:483-486) | high (proved; not executed) | LegacyCodec.LegacyRemoveRaisesExample | CodecProps.RemoveTagEffect |
