/** The clean-up WriteChapters applies to every chapter the language model
    returns (nodes.py:626-676): the globs rule, the heading repair and the
    front matter. */
module ChapterOutput {
  import opened Outcome
  import opened Text
  import opened PyInt
  import opened Yaml

  predicate HasChapterKeys(doc: Value) {
    doc.Map? && "description" in doc.entries && "globs" in doc.entries &&
    "alwaysApply" in doc.entries && "content" in doc.entries
  }

  /** `globs` after normalisation: a single space for `None` or an empty list,
      trimmed when it is a string, unchanged otherwise. */
  function NormalGlobs(globs: Value): Value {
    if globs.Null? || (globs.List? && |globs.items| == 0) then Str(" ")
    else if globs.Str? then Str(Strip(globs.s))
    else globs
  }

  /** `f"# Chapter {chapter_num}"`. */
  function ChapterPrefix(num: int): string {
    "# Chapter " + DecimalString(num)
  }

  /** `f"# Chapter {chapter_num}: {abstraction_name}"`. */
  function Heading(num: int, name: string): string {
    ChapterPrefix(num) + ": " + name
  }

  /** The heading rule: a body whose trimmed text already starts with the
      chapter prefix is kept; otherwise a first line that is some heading is
      replaced by the chapter heading, and failing that the heading is put in
      front. `Split` never returns an empty list, so the first line always
      exists. */
  function RepairHeading(num: int, name: string, content: string): string {
    var t := Strip(content);
    if StartsWith(t, ChapterPrefix(num)) then content
    else
      var lines := Split(t, "\n");
      if StartsWith(Strip(lines[0]), "#") then Join("\n", [Heading(num, name)] + lines[1..])
      else Heading(num, name) + "\n\n" + content
  }

  /** The front matter put before every chapter. */
  function FrontMatter(description: string, globs: string, alwaysApply: bool): string {
    "---\ndescription: " + Strip(description) + "\nglobs: " + Strip(globs) +
    "\nalwaysApply: " + (if alwaysApply then "true" else "false") + "\n---\n"
  }

  /** The chapter text built from the loaded document, or the exception the
      clean-up raises. The type check at nodes.py:645 tests the key names
      rather than the values and never fails; a value that is not a string
      fails where `.strip()` is first called on it: the content, then the
      description, then the globs. */
  function NormalizeChapter(num: int, name: string, doc: Value): Result<string> {
    if !HasChapterKeys(doc) then Err(MissingKeys)
    else
      var description, globs := doc.entries["description"], NormalGlobs(doc.entries["globs"]);
      var alwaysApply, content := doc.entries["alwaysApply"], doc.entries["content"];
      if !alwaysApply.Bool? then Err(AlwaysApplyNotBool)
      else if !content.Str? then Err(NoStrip("content"))
      else if !description.Str? then Err(NoStrip("description"))
      else if !globs.Str? then Err(NoStrip("globs"))
      else Ok(FrontMatter(description.s, globs.s, alwaysApply.b) + RepairHeading(num, name, content.s))
  }

  /** What an acceptable chapter document is: the four keys, a boolean
      `alwaysApply`, string content and description, and globs that are
      `None`, an empty list or a string. */
  predicate ChapterWellFormed(doc: Value) {
    && HasChapterKeys(doc)
    && doc.entries["alwaysApply"].Bool?
    && doc.entries["content"].Str?
    && doc.entries["description"].Str?
    && (doc.entries["globs"].Null? || doc.entries["globs"] == List([]) || doc.entries["globs"].Str?)
  }

  /** A chapter is accepted exactly when it is well formed; the result is
      the front matter followed by the repaired body. */
  lemma ChapterAccepted(num: int, name: string, doc: Value)
    ensures NormalizeChapter(num, name, doc).Ok? <==> ChapterWellFormed(doc)
    ensures NormalizeChapter(num, name, doc).Ok? ==>
              var globs := doc.entries["globs"];
              NormalizeChapter(num, name, doc).value ==
                FrontMatter(doc.entries["description"].s, if globs.Str? then Strip(globs.s) else " ",
                            doc.entries["alwaysApply"].b) +
                RepairHeading(num, name, doc.entries["content"].s)
  {
    if HasChapterKeys(doc) {
      var globs := doc.entries["globs"];
      assert NormalGlobs(globs).Str? <==> globs.Null? || globs == List([]) || globs.Str?;
    }
  }

  /** `None` and an empty list both leave the globs line empty. */
  lemma EmptyGlobsLine(description: string, alwaysApply: bool)
    ensures FrontMatter(description, " ", alwaysApply) ==
              "---\ndescription: " + Strip(description) + "\nglobs: " +
              "\nalwaysApply: " + (if alwaysApply then "true" else "false") + "\n---\n"
  {
    assert Strip(" ") == "";
  }

  /** The chapter prefix starts with "#" and ends with a digit. */
  lemma PrefixEnds(num: int)
    ensures |ChapterPrefix(num)| > 0 && !IsSpace(ChapterPrefix(num)[0])
    ensures !IsSpace(ChapterPrefix(num)[|ChapterPrefix(num)| - 1])
  {
    DecimalStringChars(num);
    var d := DecimalString(num);
    assert ChapterPrefix(num)[|ChapterPrefix(num)| - 1] == d[|d| - 1];
  }

  /** A text starting with the chapter prefix still does after trimming. */
  lemma PrefixSurvivesStrip(num: int, rest: string)
    ensures StartsWith(Strip(ChapterPrefix(num) + rest), ChapterPrefix(num))
  {
    PrefixEnds(num);
    StripKeepsPrefix(ChapterPrefix(num), rest);
  }

  /** A joined list of lines starts with its first line. */
  lemma JoinStartsWithFirst(first: string, rest: seq<string>)
    ensures StartsWith(Join("\n", [first] + rest), first)
  {
    var parts := [first] + rest;
    assert parts[0] == first && parts[1..] == rest;
  }

  /** The heading starts with the chapter prefix. */
  lemma HeadingStartsWithPrefix(num: int, name: string)
    ensures StartsWith(Heading(num, name), ChapterPrefix(num))
  {
    ConcatAssoc(ChapterPrefix(num), ": ", name);
    StartsWithConcat(ChapterPrefix(num), ": " + name);
  }

  /** A text that starts with the heading starts with the chapter prefix
      once trimmed. */
  lemma HeadedSurvivesStrip(num: int, name: string, body: string)
    requires StartsWith(body, Heading(num, name))
    ensures StartsWith(Strip(body), ChapterPrefix(num))
  {
    var p := ChapterPrefix(num);
    HeadingStartsWithPrefix(num, name);
    StartsWithTrans(body, Heading(num, name), p);
    assert body == p + body[|p|..];
    PrefixSurvivesStrip(num, body[|p|..]);
  }

  /** The heading rule keeps a body that already has its heading. Otherwise,
      with `t` the trimmed body, it replaces the first line of `t` when that
      line is a heading and keeps the rest of `t`, or else puts the heading
      and a blank line in front of the untrimmed body. */
  lemma RepairCases(num: int, name: string, content: string)
    ensures StartsWith(Strip(content), ChapterPrefix(num)) ==> RepairHeading(num, name, content) == content
    ensures var t := Strip(content);
            !StartsWith(t, ChapterPrefix(num)) && StartsWith(Strip(Before(t, "\n")), "#") ==>
              RepairHeading(num, name, content) == Heading(num, name) + t[|Before(t, "\n")|..]
    ensures var t := Strip(content);
            !StartsWith(t, ChapterPrefix(num)) && !StartsWith(Strip(Before(t, "\n")), "#") ==>
              RepairHeading(num, name, content) == Heading(num, name) + "\n\n" + content
    ensures !StartsWith(Strip(content), ChapterPrefix(num)) ==> StartsWith(RepairHeading(num, name, content), Heading(num, name))
  {
    var t := Strip(content);
    var h := Heading(num, name);
    if !StartsWith(t, ChapterPrefix(num)) {
      var lines := Split(t, "\n");
      if StartsWith(Strip(lines[0]), "#") {
        ReplaceFirstLine(h, t);
        StartsWithConcat(h, t[|Before(t, "\n")|..]);
      } else {
        ConcatAssoc(h, "\n\n", content);
        StartsWithConcat(h, "\n\n" + content);
      }
    }
  }

  /** Replacing the first line of `t` by `h` keeps everything from the first
      newline on. */
  lemma ReplaceFirstLine(h: string, t: string)
    ensures Join("\n", [h] + Split(t, "\n")[1..]) == h + t[|Before(t, "\n")|..]
  {
    var b := Before(t, "\n");
    match After(t, "\n")
    case None =>
      SplitSingle(t, "\n");
      assert [h] + Split(t, "\n")[1..] == [h];
      assert t[|b|..] == [];
    case Some(rest) =>
      SplitCons(t, "\n");
      var pieces := Split(rest, "\n");
      assert Split(t, "\n")[1..] == pieces;
      JoinCons("\n", h, pieces);
      JoinSplit(rest, "\n");
      assert t == b + "\n" + rest;
      assert t[|b|..] == "\n" + rest;
  }

  /** Whatever the model wrote, the trimmed body starts with "# Chapter n",
      and a body that already did is left as it was. */
  lemma RepairedBodyHasHeading(num: int, name: string, content: string)
    ensures StartsWith(Strip(RepairHeading(num, name, content)), ChapterPrefix(num))
    ensures StartsWith(Strip(content), ChapterPrefix(num)) ==> RepairHeading(num, name, content) == content
  {
    RepairCases(num, name, content);
    if !StartsWith(Strip(content), ChapterPrefix(num)) {
      HeadedSurvivesStrip(num, name, RepairHeading(num, name, content));
    }
  }

  /** Repairing a repaired body changes nothing. */
  lemma RepairIdempotent(num: int, name: string, content: string)
    ensures RepairHeading(num, name, RepairHeading(num, name, content)) == RepairHeading(num, name, content)
  {
    RepairedBodyHasHeading(num, name, content);
    RepairedBodyHasHeading(num, name, RepairHeading(num, name, content));
  }
}
