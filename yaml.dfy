/** Parsed YAML documents, and the fenced-block rules by which the stages of
    nodes.py cut the YAML text out of a language-model response. */
module Yaml {
  import opened Outcome
  import opened Text

  /** A document as the YAML loader returns it. Mapping keys that are not
      strings are dropped: nodes.py only ever looks up string keys. `Other`
      stands for the remaining scalars (floats, dates, binary), none of whose
      `str()` forms ("1.0", "2024-01-01", "b'..'") `int()` accepts. */
  datatype Value =
    | Null
    | Bool(b: bool)
    | Int(i: int)
    | Str(s: string)
    | List(items: seq<Value>)
    | Map(entries: map<string, Value>)
    | Other

  /** `isinstance(v, dict) and all(k in v for k in keys)`. */
  predicate HasKeys(v: Value, keys: seq<string>) {
    v.Map? && forall k :: k in keys ==> k in v.entries
  }

  const Fence := "```"
  const YamlFence := "```yaml"

  lemma FencesDoNotOverlapThemselves()
    ensures LastCharUnique(YamlFence) && LastCharUnique(Fence[..1])
  {
  }

  /** `response.strip().split("```yaml")[1].split("```")[0].strip()`, the rule of
      IdentifyAbstractions, AnalyzeRelationships and OrderChapters; `None` where
      Python raises IndexError because the response has no "```yaml". */
  function FencedYaml(response: string): Option<string> {
    match After(Strip(response), YamlFence)
    case None => None
    case Some(rest) => Some(Strip(Before(Before(rest, YamlFence), Fence)))
  }

  /** The pieces of a text holding "```yaml": what comes before the first
      "```yaml"; then, up to the next "```yaml" (or the end), a first part `mid`
      that ends where the first "```" of that stretch begins, and the rest
      `inner` of the stretch; and finally `post`. */
  lemma FencedSplit(s: string) returns (pre: string, mid: string, inner: string, post: string)
    requires Contains(s, YamlFence)
    ensures mid == Before(Before(After(s, YamlFence).value, YamlFence), Fence)
    ensures s == pre + YamlFence + mid + inner + post
    ensures Find(s, YamlFence) == Some(|pre|)
    ensures FirstCut(mid + inner, post, YamlFence)
    ensures FirstCut(mid, inner, Fence)
    ensures !Contains(mid, Fence)
  {
    var rest := After(s, YamlFence).value;
    pre := Before(s, YamlFence);
    assert s == pre + YamlFence + rest;
    var piece := Before(rest, YamlFence);
    post := CutAtFirst(rest, YamlFence);
    mid := Before(piece, Fence);
    inner := CutAtFirst(piece, Fence);
    ConcatAssoc(pre + YamlFence, mid + inner, post);
    ConcatAssoc(pre + YamlFence, mid, inner);
  }

  /** The block is found exactly when the trimmed response holds "```yaml".
      It is then the trimmed text between the first "```yaml" and the first
      "```" after it, where that "```" lies before the next "```yaml"; with
      no such "```" the block runs to the next "```yaml" or to the end. */
  lemma FencedYamlParts(response: string) returns (pre: string, mid: string, inner: string, post: string)
    ensures FencedYaml(response).Some? <==> Contains(Strip(response), YamlFence)
    ensures FencedYaml(response).Some? ==>
              && Strip(response) == pre + YamlFence + mid + inner + post
              && Find(Strip(response), YamlFence) == Some(|pre|)
              && FirstCut(mid + inner, post, YamlFence)
              && FirstCut(mid, inner, Fence)
              && FencedYaml(response).value == Strip(mid)
              && !Contains(FencedYaml(response).value, Fence)
  {
    pre, mid, inner, post := "", "", "", "";
    var s := Strip(response);
    if Contains(s, YamlFence) {
      pre, mid, inner, post := FencedSplit(s);
      assert FencedYaml(response) == Some(Strip(mid));
      StripLacks(mid, Fence);
    }
  }

  /** `response.strip().split("```yaml")[1].rstrip("```")`, the rule of
      WriteChapters: everything after the first "```yaml" up to a second one,
      with trailing backticks removed, so code fences inside the chapter survive. */
  function ChapterYaml(response: string): Option<string> {
    match After(Strip(response), YamlFence)
    case None => None
    case Some(rest) => Some(RStripChar(Before(rest, YamlFence), '`'))
  }

  /** The pieces of a text holding "```yaml" under the chapter rule. */
  lemma ChapterSplit(s: string) returns (pre: string, body: string, ticks: string, post: string)
    requires Contains(s, YamlFence)
    ensures body == RStripChar(Before(After(s, YamlFence).value, YamlFence), '`')
    ensures ChapterPieces(s, pre, body, ticks, post)
  {
    var rest := After(s, YamlFence).value;
    pre := Before(s, YamlFence);
    body := RStripChar(Before(rest, YamlFence), '`');
    ticks, post := CutThenTrim(rest, YamlFence, '`');
    assert s == pre + YamlFence + rest;
    ConcatAssoc(pre + YamlFence, body + ticks, post);
    ConcatAssoc(pre + YamlFence, body, ticks);
  }

  /** The chapter block is found exactly when the trimmed response holds
      "```yaml". It is what follows that fence up to the next "```yaml" (or
      the end), less a run of trailing backticks, so it does not end in a
      backtick. */
  lemma ChapterYamlParts(response: string) returns (pre: string, ticks: string, post: string)
    ensures ChapterYaml(response).Some? <==> Contains(Strip(response), YamlFence)
    ensures ChapterYaml(response).Some? ==> ChapterPieces(Strip(response), pre, ChapterYaml(response).value, ticks, post)
  {
    pre, ticks, post := "", "", "";
    var s := Strip(response);
    if Contains(s, YamlFence) {
      var body;
      pre, body, ticks, post := ChapterSplit(s);
      assert ChapterYaml(response) == Some(body);
    }
  }

  /** `s` is `pre + "```yaml" + body + ticks + post`, cut at its first "```yaml"
      and then at the next one (or the end), where `ticks` is the trailing run
      of backticks of the stretch in between. */
  predicate ChapterPieces(s: string, pre: string, body: string, ticks: string, post: string) {
    && s == pre + YamlFence + body + ticks + post
    && Find(s, YamlFence) == Some(|pre|)
    && FirstCut(body + ticks, post, YamlFence)
    && (forall i :: 0 <= i < |ticks| ==> ticks[i] == '`')
    && (body == [] || body[|body| - 1] != '`')
  }

  /** A body between "```yaml" and a closing "```" comes back whole, plain
      "```" code fences inside it included, where the general rule would stop
      at the first of them. */
  lemma ChapterRuleKeepsInnerFences(body: string)
    requires !Contains(body, YamlFence)
    requires body == [] || body[|body| - 1] != '`'
    ensures ChapterYaml(YamlFence + body + Fence) == Some(body)
  {
    var s := YamlFence + body + Fence;
    FencedTextTrimmed(body);
    AfterOpeningFence(body);
    ContainsAcross(body, Fence, YamlFence);
    SplitSingle(body + Fence, YamlFence);
    TrailingFenceDropped(body);
  }

  lemma FencedTextTrimmed(body: string)
    ensures Strip(YamlFence + body + Fence) == YamlFence + body + Fence
  {
    var s := YamlFence + body + Fence;
    assert s[0] == '`' && s[|s| - 1] == '`';
    StripKeeps(s);
  }

  lemma AfterOpeningFence(body: string)
    requires !Contains(body, YamlFence)
    ensures After(YamlFence + body + Fence, YamlFence) == Some(body + Fence)
  {
    assert !Contains([], YamlFence);
    FindAfterClearPrefix([], YamlFence, body + Fence);
    assert [] + YamlFence + (body + Fence) == YamlFence + body + Fence;
  }

  lemma TrailingFenceDropped(body: string)
    requires body == [] || body[|body| - 1] != '`'
    ensures RStripChar(body + Fence, '`') == body
  {
    RStripCharRun(body, Fence, '`', body + Fence);
  }
}
