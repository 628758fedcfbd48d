/** CombineTutorial.prep (nodes.py:690-748): the guide text and the chapter
    files of the generated rules directory. */
module CombineTutorial {
  import opened Outcome
  import opened Text
  import opened FileContent
  import opened IdentifyAbstractions
  import opened WriteChapters

  /** The line appended to the guide and to every chapter file. */
  const Attribution := "---\n\nGenerated by [Rules for AI](https://github.com/altaidevorg/rules-for-ai)"

  /** One file of the output directory. */
  datatype ChapterFile = ChapterFile(filename: string, content: string)

  /** What `prep` hands to `exec`. */
  datatype Output = Output(outputPath: string, guide: string, files: seq<ChapterFile>)

  /** `os.path.join(base, name)` on POSIX paths. */
  function PathJoin(base: string, name: string): string {
    if StartsWith(name, "/") || base == [] then name
    else if EndsWith(base, "/") then base + name
    else base + "/" + name
  }

  /** `f"{x}"` of an optional string: Python prints a missing value as "None". */
  function Shown(x: Option<string>): string {
    match x
    case None => "None"
    case Some(s) => s
  }

  /** The guide up to the chapter links. */
  function GuideHeader(projectName: string, summary: string, repoUrl: Option<string>): string {
    "---\ndescription: Guidelines for using " + projectName + "\nglobs: \nalwaysApply: true\n---\n" +
    summary + "\n\n" +
    "**Source Repository:** [" + Shown(repoUrl) + "](" + Shown(repoUrl) + ")\n\n" +
    "```\n\n" +
    "## Chapters\n\n"
  }

  /** A chapter padded to end in a blank line, then the attribution. */
  function WithAttribution(chapter: string): string {
    (if EndsWith(chapter, "\n\n") then chapter else chapter + "\n\n") + Attribution
  }

  /** Position `i` gets a file when its order entry names an abstraction and
      a chapter was written at that position. */
  predicate Produces(order: seq<int>, abstractions: seq<Abstraction>, chapters: seq<string>, i: int) {
    0 <= i < |order| && 0 <= order[i] < |abstractions| && i < |chapters|
  }

  function FileAt(order: seq<int>, abstractions: seq<Abstraction>, chapters: seq<string>, i: int): ChapterFile
    requires Produces(order, abstractions, chapters, i)
  {
    ChapterFile(ChapterFilename(abstractions[order[i]].name), WithAttribution(chapters[i]))
  }

  function LinkAt(order: seq<int>, abstractions: seq<Abstraction>, chapters: seq<string>, i: int): string
    requires Produces(order, abstractions, chapters, i)
  {
    var name := abstractions[order[i]].name;
    "[" + name + "](" + ChapterFilename(name) + ")\n"
  }

  /** The guide's links for the first `n` positions. */
  function GuideLinks(order: seq<int>, abstractions: seq<Abstraction>, chapters: seq<string>, n: nat): string
    requires n <= |order|
  {
    if n == 0 then ""
    else if Produces(order, abstractions, chapters, n - 1) then
      GuideLinks(order, abstractions, chapters, n - 1) + LinkAt(order, abstractions, chapters, n - 1)
    else GuideLinks(order, abstractions, chapters, n - 1)
  }

  /** The chapter files of the first `n` positions. */
  function ChapterFiles(order: seq<int>, abstractions: seq<Abstraction>, chapters: seq<string>, n: nat): seq<ChapterFile>
    requires n <= |order|
  {
    if n == 0 then []
    else if Produces(order, abstractions, chapters, n - 1) then
      ChapterFiles(order, abstractions, chapters, n - 1) + [FileAt(order, abstractions, chapters, n - 1)]
    else ChapterFiles(order, abstractions, chapters, n - 1)
  }

  /** What `prep` returns. */
  function PrepOutput(projectName: string, outputDir: Option<string>, repoUrl: Option<string>, summary: string,
                      order: seq<int>, abstractions: seq<Abstraction>, chapters: seq<string>): Output
  {
    var base := match outputDir case None => "output" case Some(d) => d;
    Output(PathJoin(base, projectName),
           GuideHeader(projectName, summary, repoUrl) + GuideLinks(order, abstractions, chapters, |order|) + "\n\n" + Attribution,
           ChapterFiles(order, abstractions, chapters, |order|))
  }

  /** `prep`, accumulating the guide text and the file list in one loop. */
  method Prep(projectName: string, outputDir: Option<string>, repoUrl: Option<string>, summary: string,
              order: seq<int>, abstractions: seq<Abstraction>, chapters: seq<string>) returns (out: Output)
    ensures out == PrepOutput(projectName, outputDir, repoUrl, summary, order, abstractions, chapters)
  {
    var base := if outputDir.Some? then outputDir.value else "output";
    var outputPath := PathJoin(base, projectName);
    var header := GuideHeader(projectName, summary, repoUrl);
    var links := "";
    var files: seq<ChapterFile> := [];
    for i := 0 to |order|
      invariant links == GuideLinks(order, abstractions, chapters, i)
      invariant files == ChapterFiles(order, abstractions, chapters, i)
    {
      var index := order[i];
      if 0 <= index < |abstractions| && i < |chapters| {
        var name := abstractions[index].name;
        var filename := ChapterFilename(name);
        links := links + ("[" + name + "](" + filename + ")\n");
        var content := chapters[i];
        if !EndsWith(content, "\n\n") {
          content := content + "\n\n";
        }
        content := content + Attribution;
        files := files + [ChapterFile(filename, content)];
      }
    }
    out := Output(outputPath, header + links + "\n\n" + Attribution, files);
  }

  /** The attribution keeps the chapter as it was, in front of a blank line
      and the attribution; a chapter that already ends in a blank line gets no
      second one. */
  lemma AttributionShape(chapter: string)
    ensures StartsWith(WithAttribution(chapter), chapter)
    ensures EndsWith(WithAttribution(chapter), "\n\n" + Attribution)
    ensures EndsWith(chapter, "\n\n") ==> WithAttribution(chapter) == chapter + Attribution
    ensures !EndsWith(chapter, "\n\n") ==> WithAttribution(chapter) == chapter + "\n\n" + Attribution
  {
    var w := WithAttribution(chapter);
    var tail := "\n\n" + Attribution;
    if EndsWith(chapter, "\n\n") {
      assert w == chapter + Attribution;
      assert w[|w| - |tail|..] == chapter[|chapter| - 2..] + Attribution;
    } else {
      assert w == chapter + tail;
      assert w[|w| - |tail|..] == tail;
    }
    assert w[..|chapter|] == chapter;
  }

  /** The positions among the first `n` that produce a file, in order. */
  function FilePositions(order: seq<int>, abstractions: seq<Abstraction>, chapters: seq<string>, n: nat): seq<int>
    requires n <= |order|
  {
    if n == 0 then []
    else if Produces(order, abstractions, chapters, n - 1) then
      FilePositions(order, abstractions, chapters, n - 1) + [n - 1]
    else FilePositions(order, abstractions, chapters, n - 1)
  }

  /** The positions are ascending, each below `n`, and are exactly the
      producing positions below `n`. */
  predicate PositionsOf(order: seq<int>, abstractions: seq<Abstraction>, chapters: seq<string>,
                        pos: seq<int>, n: nat)
  {
    && (forall k :: 0 <= k < |pos| ==> 0 <= pos[k] < n && Produces(order, abstractions, chapters, pos[k]))
    && (forall k, j :: 0 <= k < j < |pos| ==> pos[k] < pos[j])
    && (forall i :: 0 <= i < n && Produces(order, abstractions, chapters, i) ==> i in pos)
  }

  /** File `k` is the file of position `pos[k]`. */
  predicate FilesAt(order: seq<int>, abstractions: seq<Abstraction>, chapters: seq<string>,
                    pos: seq<int>, files: seq<ChapterFile>)
  {
    && |files| == |pos|
    && (forall k :: 0 <= k < |pos| ==> Produces(order, abstractions, chapters, pos[k]))
    && (forall k :: 0 <= k < |pos| ==> files[k] == FileAt(order, abstractions, chapters, pos[k]))
  }

  lemma PositionsStep(order: seq<int>, abstractions: seq<Abstraction>, chapters: seq<string>,
                      pos: seq<int>, files: seq<ChapterFile>, n: nat)
    requires n < |order|
    requires PositionsOf(order, abstractions, chapters, pos, n)
    requires FilesAt(order, abstractions, chapters, pos, files)
    ensures Produces(order, abstractions, chapters, n) ==>
              && PositionsOf(order, abstractions, chapters, pos + [n], n + 1)
              && FilesAt(order, abstractions, chapters, pos + [n], files + [FileAt(order, abstractions, chapters, n)])
    ensures !Produces(order, abstractions, chapters, n) ==> PositionsOf(order, abstractions, chapters, pos, n + 1)
  {
    if Produces(order, abstractions, chapters, n) {
      PositionsGrow(order, abstractions, chapters, pos, n);
      FilesGrow(order, abstractions, chapters, pos, files, n);
    }
  }

  lemma PositionsGrow(order: seq<int>, abstractions: seq<Abstraction>, chapters: seq<string>,
                      pos: seq<int>, n: nat)
    requires n < |order| && Produces(order, abstractions, chapters, n)
    requires PositionsOf(order, abstractions, chapters, pos, n)
    ensures PositionsOf(order, abstractions, chapters, pos + [n], n + 1)
  {
    var pos' := pos + [n];
    assert forall k :: 0 <= k < |pos| ==> pos'[k] == pos[k];
    assert pos'[|pos|] == n;
    forall i | 0 <= i < n + 1 && Produces(order, abstractions, chapters, i)
      ensures i in pos'
    {
      if i < n {
        var k :| 0 <= k < |pos| && pos[k] == i;
        assert pos'[k] == i;
      }
    }
  }

  lemma FilesGrow(order: seq<int>, abstractions: seq<Abstraction>, chapters: seq<string>,
                  pos: seq<int>, files: seq<ChapterFile>, n: nat)
    requires n < |order| && Produces(order, abstractions, chapters, n)
    requires FilesAt(order, abstractions, chapters, pos, files)
    ensures FilesAt(order, abstractions, chapters, pos + [n], files + [FileAt(order, abstractions, chapters, n)])
  {
    var pos' := pos + [n];
    var files' := files + [FileAt(order, abstractions, chapters, n)];
    assert forall k :: 0 <= k < |pos| ==> pos'[k] == pos[k] && files'[k] == files[k];
  }

  /** Every file comes from a producing position, in position order, and
      every producing position gives exactly one file: at most one file per
      position and per chapter. */
  lemma {:induction false} FilesFromPositions(order: seq<int>, abstractions: seq<Abstraction>, chapters: seq<string>, n: nat)
    requires n <= |order|
    ensures var files := ChapterFiles(order, abstractions, chapters, n);
            var pos := FilePositions(order, abstractions, chapters, n);
            && |files| <= n && |files| <= |chapters|
            && PositionsOf(order, abstractions, chapters, pos, n)
            && FilesAt(order, abstractions, chapters, pos, files)
    decreases n
  {
    if n > 0 {
      FilesFromPositions(order, abstractions, chapters, n - 1);
      var files := ChapterFiles(order, abstractions, chapters, n - 1);
      var pos := FilePositions(order, abstractions, chapters, n - 1);
      PositionsStep(order, abstractions, chapters, pos, files, n - 1);
    }
  }

  /** When every position produces a file, file `i` holds chapter `i`, with its
      attribution, under the name of the abstraction at position `i`. */
  lemma {:induction false} FilesOfFullOrder(order: seq<int>, abstractions: seq<Abstraction>, chapters: seq<string>, n: nat)
    requires n <= |order|
    requires forall i :: 0 <= i < n ==> Produces(order, abstractions, chapters, i)
    ensures var files := ChapterFiles(order, abstractions, chapters, n);
            |files| == n && forall i :: 0 <= i < n ==> files[i] == FileAt(order, abstractions, chapters, i)
    decreases n
  {
    if n > 0 {
      FilesOfFullOrder(order, abstractions, chapters, n - 1);
    }
  }

  /** The front matter of the guide. */
  function GuideFront(projectName: string): string {
    "---\ndescription: Guidelines for using " + projectName + "\nglobs: \nalwaysApply: true\n---\n"
  }

  lemma HeaderStartsWithFront(projectName: string, summary: string, repoUrl: Option<string>)
    ensures StartsWith(GuideHeader(projectName, summary, repoUrl), GuideFront(projectName))
  {
    var header := GuideHeader(projectName, summary, repoUrl);
    assert header[..|GuideFront(projectName)|] == GuideFront(projectName);
  }

  /** The guide starts with front matter that always applies and ends with
      the attribution. */
  lemma GuideShape(projectName: string, outputDir: Option<string>, repoUrl: Option<string>, summary: string,
                   order: seq<int>, abstractions: seq<Abstraction>, chapters: seq<string>)
    ensures var guide := PrepOutput(projectName, outputDir, repoUrl, summary, order, abstractions, chapters).guide;
            && StartsWith(guide, GuideFront(projectName))
            && EndsWith(guide, "\n\n" + Attribution)
  {
    var links := GuideLinks(order, abstractions, chapters, |order|);
    var header := GuideHeader(projectName, summary, repoUrl);
    var tail := "\n\n" + Attribution;
    HeaderStartsWithFront(projectName, summary, repoUrl);
    StartsWithAppend(header, links + tail, GuideFront(projectName));
    EndsWithAppend(header + links, tail);
    ConcatAssoc(header, links, tail);
    assert header + links + "\n\n" + Attribution == header + links + tail;
  }

  /** The link a chapter gives to the next one names the file the next
      chapter is written to: WriteChapters and CombineTutorial agree on file
      names. */
  lemma NextLinkNamesNextFile(order: seq<int>, abstractions: seq<Abstraction>, files: seq<File>,
                              chapters: seq<string>, p: nat)
    requires forall i :: 0 <= i < |order| ==> 0 <= order[i] < |abstractions|
    requires forall i, j :: 0 <= i < j < |order| ==> order[i] != order[j]
    requires |chapters| == |order| && p + 1 < |order|
    ensures var items := PrepItems(order, abstractions, files);
            var out := ChapterFiles(order, abstractions, chapters, |order|);
            && items.Ok? && |items.value| == |order| && |out| == |order|
            && items.value[p].next.Some? && items.value[p].next.value.filename == out[p + 1].filename
  {
    PrepItemsOfValidOrder(order, abstractions, files);
    FilesOfFullOrder(order, abstractions, chapters, |order|);
  }
}
