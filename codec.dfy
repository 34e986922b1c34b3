/**
 * The tag-in-filename codec of the current package.
 *
 * A tagged base name reads `STEM -- TAG TAG ...` optionally followed by
 * `.EXT`. The regex `(.+?) -- (.+?)(\.(\w+))??$`, matched from the start of
 * the base name, decides three groups:
 *   - the stem: the text before the first ` -- ` that starts at index 1 or
 *     later and has at least one character after it;
 *   - the tag list: the rest after that separator, without a trailing
 *     `.` + word characters when stripping it leaves a non-empty tag list;
 *   - the extension: those word characters, when present.
 * Tags are the tag list split on single spaces (empty pieces kept).
 */
module Codec {
  import opened Wrappers
  import opened Text
  import opened Paths

  const Separator: string := " -- "

  /** The three groups of a successful match of the tag regex. */
  datatype TaggedName = TaggedName(stem: string, tagList: string, ext: Option<string>)

  predicate SeparatorAt(s: string, i: int) {
    0 <= i && i + 4 <= |s| && s[i] == ' ' && s[i + 1] == '-' && s[i + 2] == '-' && s[i + 3] == ' '
  }

  /** A separator at `i` that the lazy stem group can stop at: at least one character follows it. */
  predicate BoundaryAt(s: string, i: int) {
    SeparatorAt(s, i) && i + 4 < |s|
  }

  /** The smallest boundary at or after `from`. */
  function FirstBoundary(s: string, from: nat): (r: Option<nat>)
    decreases |s| - from
    ensures r.Some? ==> from <= r.value && BoundaryAt(s, r.value)
    ensures forall j :: from <= j && (r.None? || j < r.value) ==> !BoundaryAt(s, j)
  {
    if from + 4 >= |s| then None
    else if SeparatorAt(s, from) then Some(from)
    else FirstBoundary(s, from + 1)
  }

  function ExtensionSuffix(ext: Option<string>): string {
    match ext
    case None => ""
    case Some(e) => "." + e
  }

  /**
   * The groups `(.+?)(\.(\w+))??$` give to the text after the separator: the
   * extension is the text after the last dot when it is non-empty, all word
   * characters, and the dot is not the first character.
   */
  function TagListAndExtension(rest: string): (r: (string, Option<string>))
    requires rest != ""
    ensures rest == r.0 + ExtensionSuffix(r.1) && r.0 != ""
    ensures r.1.Some? ==> r.1.value != "" && AllWordChars(r.1.value)
  {
    match LastIndexOf(rest, '.')
    case Some(k) =>
      if 1 <= k && k + 1 < |rest| && AllWordChars(rest[k + 1..]) then
        assert rest == rest[..k] + "." + rest[k + 1..];
        (rest[..k], Some(rest[k + 1..]))
      else (rest, None)
    case None => (rest, None)
  }

  /** `re.match(FILE_WITH_TAGS_REGEX, name)` */
  function Parse(name: string): Option<TaggedName>
  {
    match FirstBoundary(name, 1)
    case None => None
    case Some(i) =>
      var parts := TagListAndExtension(name[i + 4..]);
      Some(TaggedName(name[..i], parts.0, parts.1))
  }

  /**
   * A match splits the name into a non-empty stem ending at the first
   * separator with text after it, a non-empty tag list and an optional
   * extension; there is no match exactly when no such separator exists.
   */
  lemma ParseSpec(name: string)
    ensures var r := Parse(name);
      && (r.Some? ==> name == r.value.stem + Separator + r.value.tagList + ExtensionSuffix(r.value.ext))
      && (r.Some? ==> 1 <= |r.value.stem| && BoundaryAt(name, |r.value.stem|))
      && (r.Some? ==> forall j :: 1 <= j < |r.value.stem| ==> !BoundaryAt(name, j))
      && (r.Some? ==> r.value.tagList != "")
      && (r.Some? && r.value.ext.Some? ==> r.value.ext.value != "" && AllWordChars(r.value.ext.value))
      && (r.None? <==> forall j :: 1 <= j ==> !BoundaryAt(name, j))
  {
    match FirstBoundary(name, 1)
    case None =>
    case Some(i) =>
      assert name == name[..i] + Separator + name[i + 4..];
  }

  predicate IsTagged(name: string) {
    Parse(name).Some?
  }

  /** The tags of a name, matched as a whole; `[]` when it does not match. */
  function TagsOf(name: string): seq<string> {
    match Parse(name)
    case None => []
    case Some(p) => Split(p.tagList, ' ')
  }

  /** `contains_tag` applied to the argument as it is; an empty tag asks whether the name is tagged at all. */
  predicate HasTag(name: string, tag: string) {
    if tag == "" then IsTagged(name) else tag in TagsOf(name)
  }

  /** `contains_tag(filename, tagname)`: matched on the base name. */
  predicate ContainsTag(filename: string, tagname: string) {
    HasTag(BaseName(filename), tagname)
  }

  /** `extract_tags_from_filename(filename)`: matched on the base name. */
  function ExtractTags(filename: string): seq<string> {
    TagsOf(BaseName(filename))
  }

  /** `re.match(FILE_WITH_EXTENSION_REGEX, name)`: split at the last dot, whatever follows it. */
  function SplitAtLastDot(name: string): (r: Option<(string, string)>)
    ensures r.Some? ==> name == r.value.0 + "." + r.value.1 && '.' !in r.value.1
    ensures r.None? ==> '.' !in name
  {
    match LastIndexOf(name, '.')
    case None => None
    case Some(k) =>
      assert name == name[..k] + "." + name[k + 1..];
      Some((name[..k], name[k + 1..]))
  }

  /** The base name `adding_tag_to_filename` builds when the tag is not there yet: split at the last dot. */
  function InsertTag(base: string, tagname: string): string {
    InsertWithSeparator(base, if IsTagged(base) then " " else Separator, tagname)
  }

  /** `tagname` joined to `base` by `sep`, in front of the last extension when there is one. */
  function InsertWithSeparator(base: string, sep: string, tagname: string): string {
    match SplitAtLastDot(base)
    case Some((b, e)) => b + sep + tagname + "." + e
    case None => base + sep + tagname
  }

  /**
   * `adding_tag_to_filename(filename, tagname)`: the name itself when it is
   * tagged and carries the tag already, otherwise the directory joined with
   * the new base name.
   */
  function AddTag(filename: string, tagname: string): string {
    var base := BaseName(filename);
    if ContainsTag(base, "") && ContainsTag(base, tagname) then filename
    else JoinPath(DirName(filename), InsertTag(base, tagname))
  }

  /**
   * The base name built in front of the extension the tag regex recognises
   * (`.` + word characters after the last dot, not at the start of the base
   * name) rather than in front of the last dot of the base name.
   */
  function InsertTagCorrected(base: string, tagname: string): string {
    match Parse(base)
    case None =>
      if base == "" then Separator + tagname
      else
        var parts := TagListAndExtension(base);
        parts.0 + Separator + tagname + ExtensionSuffix(parts.1)
    case Some(p) => p.stem + Separator + p.tagList + " " + tagname + ExtensionSuffix(p.ext)
  }

  /**
   * `adding_tag_to_filename` placing the new tag where the tag regex looks
   * for it: the corrected add of the findings. On well-formed names it agrees
   * with `AddTag`.
   */
  function AddTagCorrected(filename: string, tagname: string): string {
    var base := BaseName(filename);
    if ContainsTag(base, "") && ContainsTag(base, tagname) then filename
    else JoinPath(DirName(filename), InsertTagCorrected(base, tagname))
  }

  /**
   * `removing_tag_from_filename(filename, tagname)`. The membership test looks
   * at the base name; the regex is then matched on the whole argument.
   */
  function RemoveTag(filename: string, tagname: string): string {
    if !ContainsTag(filename, tagname) then filename
    else
      match Parse(filename)
      case None => filename
      case Some(p) =>
        var tags := Split(p.tagList, ' ');
        var ext := ExtensionSuffix(p.ext);
        if |tags| < 2 then p.stem + ext
        else p.stem + Separator + Join(Without(tags, tagname), ' ') + ext
  }

  /**
   * The corrected removal of the findings: the separator goes as well when
   * no tag is left, also when the name carried the tag more than once.
   */
  function RemoveTagCorrected(filename: string, tagname: string): string {
    if !ContainsTag(filename, tagname) then filename
    else
      match Parse(filename)
      case None => filename
      case Some(p) =>
        var tags := Split(p.tagList, ' ');
        var ext := ExtensionSuffix(p.ext);
        if |tags| < 2 || Without(tags, tagname) == [] then p.stem + ext
        else p.stem + Separator + Join(Without(tags, tagname), ' ') + ext
  }

  /** `extract_tags_from_argument(argument)`: `None` stands for Python's `False`. */
  function ExtractTagsFromArgument(argument: string): (r: Option<seq<string>>)
    ensures r.None? <==> argument == ""
    ensures r.Some? ==> Join(r.value, ' ') == argument && forall k :: 0 <= k < |r.value| ==> ' ' !in r.value[k]
  {
    if |argument| > 0 then
      JoinSplit(argument, ' ');
      Some(Split(argument, ' '))
    else None
  }
}
