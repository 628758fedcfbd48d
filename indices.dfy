/** The rule by which nodes.py reads an index out of a loaded YAML entry.
    The prompts ask for entries of the form `idx # comment`; the language
    model may as well answer with a bare integer or a plain string. */
module IndexEntries {
  import opened Outcome
  import opened Text
  import opened PyInt
  import opened Yaml

  /** `f"{i} # {text}"`: an index with a comment, the format the prompts ask for. */
  function Tagged(i: int, text: string): string {
    DecimalString(i) + " # " + text
  }

  /** `str(v)` for the values whose text form `int()` can possibly accept.
      Lists, mappings and the other scalars print as "[..]", "{..}", "1.0",
      "2024-01-01", ..., which `int()` rejects under every split and strip. */
  function StrForm(v: Value): Option<string> {
    match v
    case Null => Some("None")
    case Bool(b) => Some(if b then "True" else "False")
    case Int(i) => Some(DecimalString(i))
    case Str(s) => Some(s)
    case _ => None
  }

  /** The entry rule of IdentifyAbstractions and OrderChapters: an `int` (a
      Python `bool` is one, so True and False read as 1 and 0) is taken as it is;
      a string holding "#" gives the integer before its first "#"; anything else
      gives `int(str(v).strip())`. `None` where Python raises. */
  function ParseIndexEntry(v: Value): Option<int> {
    match v
    case Int(i) => Some(i)
    case Bool(b) => Some(if b then 1 else 0)
    case Str(s) => if '#' in s then ParseInt(Before(s, "#")) else ParseInt(s)
    case _ =>
      match StrForm(v)
      case None => None
      case Some(t) => ParseInt(t)
  }

  /** The endpoint rule of AnalyzeRelationships: `int(str(v).split("#")[0].strip())`,
      whatever the type of `v`. */
  function ParseEndpoint(v: Value): Option<int> {
    match StrForm(v)
    case None => None
    case Some(t) => ParseInt(Before(t, "#"))
  }

  /** An entry parsed by the entry rule and checked against `[0, bound)`. A
      failed parse and a failed range check both surface as the same
      "Could not parse index" error, because the range error is raised inside
      the `try` that re-raises every ValueError. */
  function CheckIndex(bound: int, v: Value): (r: Result<int>)
    ensures r.Ok? <==> ParseIndexEntry(v).Some? && 0 <= ParseIndexEntry(v).value < bound
    ensures r.Ok? ==> r.value == ParseIndexEntry(v).value
    ensures r.Err? ==> r.error == UnparsableIndex
  {
    match ParseIndexEntry(v)
    case None => Err(UnparsableIndex)
    case Some(i) => if 0 <= i < bound then Ok(i) else Err(UnparsableIndex)
  }

  /** `CheckIndex` for one bound, as the function a validation loop applies
      to every entry. */
  function IndexCheck(bound: int): Value -> Result<int> {
    v => CheckIndex(bound, v)
  }

  /** The distinct values the entry rule reads from `items`. */
  function ParsedValues(items: seq<Value>): set<int> {
    set k | 0 <= k < |items| && ParseIndexEntry(items[k]).Some? :: ParseIndexEntry(items[k]).value
  }

  /** A list of entries that all pass `CheckIndex` yields the parsed values, in
      order, all within bounds. */
  lemma CheckedEntries(bound: int, items: seq<Value>)
    requires MapAll(items, IndexCheck(bound)).Ok?
    ensures var idx := MapAll(items, IndexCheck(bound)).value;
            && |idx| == |items|
            && (forall k :: 0 <= k < |items| ==> ParseIndexEntry(items[k]) == Some(idx[k]))
            && (forall x :: x in idx ==> 0 <= x < bound)
            && (set x | x in idx) == ParsedValues(items)
  {
    var idx := MapAll(items, IndexCheck(bound)).value;
    forall k | 0 <= k < |items| ensures ParseIndexEntry(items[k]) == Some(idx[k]) && 0 <= idx[k] < bound {
      assert IndexCheck(bound)(items[k]).Ok?;
    }
  }

  /** `str(n)` holds no character other than digits and a minus sign. */
  lemma DecimalLacks(n: int, c: char)
    requires !IsDigit(c) && c != '-'
    ensures !Contains(DecimalString(n), [c])
  {
    DecimalStringChars(n);
    ContainsChar(DecimalString(n), c);
  }

  lemma DecimalHasNoHash(n: int)
    ensures !Contains(DecimalString(n), "#") && !Contains(DecimalString(n) + " ", "#")
  {
    var d := DecimalString(n);
    DecimalLacks(n, '#');
    ContainsAcross(d, " ", "#");
  }

  /** The text before the first "#" of a tagged index is the number and one space. */
  lemma TaggedBeforeHash(n: int, comment: string)
    ensures '#' in Tagged(n, comment)
    ensures Before(Tagged(n, comment), "#") == DecimalString(n) + " "
  {
    var d := DecimalString(n);
    var s := Tagged(n, comment);
    DecimalHasNoHash(n);
    assert s == (d + " ") + "#" + (" " + comment);
    FindAfterClearPrefix(d + " ", "#", " " + comment);
    assert s[|d| + 1] == '#';
  }

  /** An index written in the format the prompts ask for reads back as that
      index, under both the entry and the endpoint rule. */
  lemma TaggedRoundTrip(n: int, comment: string)
    ensures ParseIndexEntry(Str(Tagged(n, comment))) == Some(n)
    ensures ParseEndpoint(Str(Tagged(n, comment))) == Some(n)
  {
    TaggedBeforeHash(n, comment);
    PaddedRoundTrip(n);
  }

  /** Text without "#" is read whole by the endpoint rule. */
  lemma EndpointWithoutHash(t: string)
    requires '#' !in t
    ensures Before(t, "#") == t
  {
    ContainsChar(t, '#');
  }

  /** A word that begins with a capital letter is not a number. */
  lemma WordRejected(t: string)
    requires |t| > 0 && 'A' <= t[0] <= 'Z' && 'a' <= t[|t| - 1] <= 'z'
    ensures ParseInt(t).None?
  {
    StripKeeps(t);
    ParseIntNeedsSignOrDigit(t);
  }

  /** The two rules agree on everything but booleans: the entry rule reads
      True and False as 1 and 0, the endpoint rule prints them and fails.
      `None` (YAML `null`) never parses. */
  lemma EndpointAgreesWithEntry(v: Value)
    ensures !v.Bool? ==> ParseEndpoint(v) == ParseIndexEntry(v)
    ensures v.Bool? ==> ParseEndpoint(v).None? && ParseIndexEntry(v) == Some(if v.b then 1 else 0)
    ensures v.Null? ==> ParseIndexEntry(v).None?
  {
    match v
    case Int(i) =>
      DecimalHasNoHash(i);
      DecimalRoundTrip(i);
    case Str(s) =>
      if '#' !in s {
        EndpointWithoutHash(s);
      }
    case Null =>
      EndpointWithoutHash("None");
      WordRejected("None");
    case Bool(b) =>
      var t := if b then "True" else "False";
      EndpointWithoutHash(t);
      WordRejected(t);
    case _ =>
  }
}
