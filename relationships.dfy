/** AnalyzeRelationships (nodes.py:220-361): the context it prepares and the
    validation of the summary and relationships the language model returns. */
module AnalyzeRelationships {
  import opened Outcome
  import opened Text
  import opened PyInt
  import opened Yaml
  import opened IndexEntries
  import opened SortedSets
  import opened FileContent
  import opened IdentifyAbstractions

  /** `{"from": int, "to": int, "label": str}`. */
  datatype Relationship = Relationship(fromIndex: int, toIndex: int, labelText: string)

  /** `{"summary": str, "details": [...]}`. */
  datatype RelationshipData = RelationshipData(summary: string, details: seq<Relationship>)

  /** `"{i} # {name}"` for every abstraction, in order. */
  function TaggedNames(abstractions: seq<Abstraction>): (r: seq<string>)
    ensures |r| == |abstractions|
    ensures forall i :: 0 <= i < |r| ==> r[i] == Tagged(i, abstractions[i].name)
  {
    seq(|abstractions|, i requires 0 <= i < |abstractions| => Tagged(i, abstractions[i].name))
  }

  /** The abstraction listing `prep` passes on: the tagged names, one per line. */
  function AbstractionListing(abstractions: seq<Abstraction>): string {
    Join("\n", TaggedNames(abstractions))
  }

  /** `len(listing.split("\n"))`, the number `exec` uses as the count of abstractions. */
  function LineCount(listing: string): nat {
    |Split(listing, "\n")|
  }

  /** Every index named by some abstraction, in order, repeats kept: the
      list whose set is `all_relevant_indices`. */
  function AllFiles(abstractions: seq<Abstraction>): seq<int>
    decreases |abstractions|
  {
    if abstractions == [] then []
    else AllFiles(abstractions[..|abstractions| - 1]) + abstractions[|abstractions| - 1].files
  }

  lemma {:induction false} AllFilesMembers(abstractions: seq<Abstraction>)
    ensures forall x :: x in AllFiles(abstractions) <==>
              exists i :: 0 <= i < |abstractions| && x in abstractions[i].files
    decreases |abstractions|
  {
    if abstractions != [] {
      var prefix := abstractions[..|abstractions| - 1];
      AllFilesMembers(prefix);
      assert forall i :: 0 <= i < |prefix| ==> prefix[i] == abstractions[i];
    }
  }

  /** `prep`: the listing of tagged names and the contents of every file some
      abstraction refers to, keyed "index # path", each file once. The rest of
      the context is prompt text. */
  method Prep(abstractions: seq<Abstraction>, files: seq<File>)
    returns (listing: string, relevant: map<string, string>)
    ensures listing == AbstractionListing(abstractions)
    ensures relevant == ContentMap(files, SortedDistinct(AllFiles(abstractions)))
    ensures forall k :: k in relevant <==>
              exists j :: 0 <= j < |files| && k == Tagged(j, files[j].path) &&
                          exists i :: 0 <= i < |abstractions| && j in abstractions[i].files
  {
    var info: seq<string> := [];
    var all: seq<int> := [];
    for i := 0 to |abstractions|
      invariant info == TaggedNames(abstractions[..i])
      invariant all == AllFiles(abstractions[..i])
    {
      assert abstractions[..i + 1][..i] == abstractions[..i];
      info := info + [Tagged(i, abstractions[i].name)];
      all := all + abstractions[i].files;
    }
    assert abstractions[..|abstractions|] == abstractions;
    listing := Join("\n", info);
    var indices := SortedDistinct(all);
    relevant := GetContentForIndices(files, indices);
    AllFilesMembers(abstractions);
    forall k | k in relevant
      ensures exists j :: 0 <= j < |files| && k == Tagged(j, files[j].path) &&
                          exists i :: 0 <= i < |abstractions| && j in abstractions[i].files
    {
      var j :| j in indices && 0 <= j < |files| && k == Tagged(j, files[j].path);
      assert j in Elements(indices);
    }
    forall j | 0 <= j < |files| && exists i :: 0 <= i < |abstractions| && j in abstractions[i].files
      ensures Tagged(j, files[j].path) in relevant
    {
      assert j in Elements(all);
      assert j in Elements(indices);
    }
  }

  /** The number of lines of the listing: one for an empty listing, and more
      than one per abstraction when names hold line breaks. */
  lemma ListingLineCount(abstractions: seq<Abstraction>)
    ensures abstractions == [] ==> LineCount(AbstractionListing(abstractions)) == 1
    ensures abstractions != [] ==>
              LineCount(AbstractionListing(abstractions)) == |abstractions| + SumCount(TaggedNames(abstractions), '\n')
    ensures abstractions != [] && (forall i :: 0 <= i < |abstractions| ==> '\n' !in abstractions[i].name) ==>
              LineCount(AbstractionListing(abstractions)) == |abstractions|
  {
    var names := TaggedNames(abstractions);
    SplitCount(Join("\n", names), '\n');
    if abstractions != [] {
      CountJoin(names, '\n');
      if forall i :: 0 <= i < |abstractions| ==> '\n' !in abstractions[i].name {
        forall i | 0 <= i < |names| ensures '\n' !in names[i] {
          TaggedLacksNewline(i, abstractions[i].name);
        }
        SumCountZero(names, '\n');
      }
    }
  }

  lemma TaggedLacksNewline(i: int, name: string)
    requires '\n' !in name
    ensures '\n' !in Tagged(i, name)
  {
    DecimalStringChars(i);
    var d := DecimalString(i);
    forall k | 0 <= k < |Tagged(i, name)| ensures Tagged(i, name)[k] != '\n' {
      if k < |d| {
        assert Tagged(i, name)[k] == d[k];
      } else if k >= |d| + 3 {
        assert Tagged(i, name)[k] == name[k - |d| - 3];
      }
    }
  }

  predicate HasRelationshipKeys(rel: Value) {
    rel.Map? && "from_abstraction" in rel.entries && "to_abstraction" in rel.entries && "label" in rel.entries
  }

  /** One relationship: required keys, a string label, both endpoints parsed by
      the endpoint rule and within `[0, bound)`. */
  function CheckRelationship(bound: int, rel: Value): Result<Relationship> {
    if !HasRelationshipKeys(rel) then Err(MissingKeys)
    else if !rel.entries["label"].Str? then Err(NotAString("label"))
    else
      var from, to := ParseEndpoint(rel.entries["from_abstraction"]), ParseEndpoint(rel.entries["to_abstraction"]);
      if from.None? || to.None? then Err(UnparsableIndex)
      else if !(0 <= from.value < bound && 0 <= to.value < bound) then Err(UnparsableIndex)
      else Ok(Relationship(from.value, to.value, rel.entries["label"].s))
  }

  function RelationshipCheck(bound: int): Value -> Result<Relationship> {
    rel => CheckRelationship(bound, rel)
  }

  predicate HasDataKeys(doc: Value) {
    doc.Map? && "summary" in doc.entries && "relationships" in doc.entries
  }

  /** The loaded document: a mapping with a string summary and a list of
      relationships, every one valid. */
  function ValidateRelationships(bound: int, doc: Value): Result<RelationshipData> {
    if !HasDataKeys(doc) then Err(MissingKeys)
    else if !doc.entries["summary"].Str? then Err(NotAString("summary"))
    else if !doc.entries["relationships"].List? then Err(FieldNotAList("relationships"))
    else
      match MapAll(doc.entries["relationships"].items, RelationshipCheck(bound))
      case Err(e) => Err(e)
      case Ok(details) => Ok(RelationshipData(doc.entries["summary"].s, details))
  }

  /** What an acceptable relationship is, stated without the validation order. */
  predicate WellFormedRelationship(bound: int, rel: Value) {
    && HasRelationshipKeys(rel)
    && rel.entries["label"].Str?
    && ParseEndpoint(rel.entries["from_abstraction"]).Some?
    && ParseEndpoint(rel.entries["to_abstraction"]).Some?
    && 0 <= ParseEndpoint(rel.entries["from_abstraction"]).value < bound
    && 0 <= ParseEndpoint(rel.entries["to_abstraction"]).value < bound
  }

  lemma RelationshipAccepted(bound: int, rel: Value)
    ensures CheckRelationship(bound, rel).Ok? <==> WellFormedRelationship(bound, rel)
    ensures CheckRelationship(bound, rel).Ok? ==>
              CheckRelationship(bound, rel).value ==
                Relationship(ParseEndpoint(rel.entries["from_abstraction"]).value,
                             ParseEndpoint(rel.entries["to_abstraction"]).value,
                             rel.entries["label"].s)
  {
  }

  /** The document is accepted exactly when it has the two keys with the right
      types and every relationship is well formed; the result keeps the
      summary, the order of the relationships and their labels, and every
      endpoint is within `[0, bound)`. */
  lemma RelationshipsAccepted(bound: int, doc: Value)
    ensures ValidateRelationships(bound, doc).Ok? <==>
              && HasDataKeys(doc) && doc.entries["summary"].Str? && doc.entries["relationships"].List?
              && forall k :: 0 <= k < |doc.entries["relationships"].items| ==>
                   WellFormedRelationship(bound, doc.entries["relationships"].items[k])
    ensures ValidateRelationships(bound, doc).Ok? ==>
              var d := ValidateRelationships(bound, doc).value;
              var rels := doc.entries["relationships"].items;
              && d.summary == doc.entries["summary"].s
              && |d.details| == |rels|
              && forall k :: 0 <= k < |rels| ==>
                   && d.details[k].labelText == rels[k].entries["label"].s
                   && d.details[k].fromIndex == ParseEndpoint(rels[k].entries["from_abstraction"]).value
                   && d.details[k].toIndex == ParseEndpoint(rels[k].entries["to_abstraction"]).value
                   && 0 <= d.details[k].fromIndex < bound && 0 <= d.details[k].toIndex < bound
  {
    if HasDataKeys(doc) && doc.entries["relationships"].List? {
      var rels := doc.entries["relationships"].items;
      forall k | 0 <= k < |rels|
        ensures RelationshipCheck(bound)(rels[k]).Ok? <==> WellFormedRelationship(bound, rels[k])
      {
        RelationshipAccepted(bound, rels[k]);
      }
      if ValidateRelationships(bound, doc).Ok? {
        forall k | 0 <= k < |rels|
          ensures RelationshipCheck(bound)(rels[k]).value ==
                Relationship(ParseEndpoint(rels[k].entries["from_abstraction"]).value,
                             ParseEndpoint(rels[k].entries["to_abstraction"]).value,
                             rels[k].entries["label"].s)
        {
          RelationshipAccepted(bound, rels[k]);
        }
      }
    }
  }

  /** The validation, with its loop over the relationships. */
  method ValidateRelationshipData(bound: int, doc: Value) returns (r: Result<RelationshipData>)
    ensures r == ValidateRelationships(bound, doc)
  {
    if !HasDataKeys(doc) {
      return Err(MissingKeys);
    }
    var summary, rels := doc.entries["summary"], doc.entries["relationships"];
    if !summary.Str? {
      return Err(NotAString("summary"));
    }
    if !rels.List? {
      return Err(FieldNotAList("relationships"));
    }
    var details := Traverse(rels.items, RelationshipCheck(bound));
    match details
    case Err(e) =>
      return Err(e);
    case Ok(ds) =>
      return Ok(RelationshipData(summary.s, ds));
  }

  /** What `exec` returns for a response, given the count of abstractions it
      checks the endpoints against. */
  function ExecResult(bound: int, response: string, load: string -> Option<Value>): Result<RelationshipData> {
    match FencedYaml(response)
    case None => Err(NoYamlBlock)
    case Some(block) =>
      match load(block)
      case None => Err(UnloadableYaml)
      case Some(doc) => ValidateRelationships(bound, doc)
  }

  /** Every relationship `exec` returns has both ends within `[0, bound)`. */
  lemma ExecEndpointsInRange(bound: int, response: string, load: string -> Option<Value>)
    ensures var r := ExecResult(bound, response, load);
            r.Ok? ==> forall k :: 0 <= k < |r.value.details| ==>
                        0 <= r.value.details[k].fromIndex < bound && 0 <= r.value.details[k].toIndex < bound
  {
    var r := ExecResult(bound, response, load);
    if r.Ok? {
      var doc := load(FencedYaml(response).value).value;
      assert r == ValidateRelationships(bound, doc);
      RelationshipsAccepted(bound, doc);
    }
  }

  /** `exec` after the language-model call. The count of abstractions is the
      number of lines of the listing `prep` produced. */
  method Exec(response: string, load: string -> Option<Value>, listing: string)
    returns (r: Result<RelationshipData>)
    ensures FencedYaml(response).None? ==> r == Err(NoYamlBlock)
    ensures FencedYaml(response).Some? && load(FencedYaml(response).value).None? ==> r == Err(UnloadableYaml)
    ensures r == ExecResult(LineCount(listing), response, load)
  {
    r := CheckResponse(LineCount(listing), response, load);
  }

  /** `exec` with the count of abstractions taken from the abstraction list
      itself, as the check against the listing intends. */
  method ExecCorrected(response: string, load: string -> Option<Value>, abstractions: seq<Abstraction>)
    returns (r: Result<RelationshipData>)
    ensures r == ExecResult(|abstractions|, response, load)
    ensures r.Ok? ==> forall k :: 0 <= k < |r.value.details| ==>
              0 <= r.value.details[k].fromIndex < |abstractions| && 0 <= r.value.details[k].toIndex < |abstractions|
  {
    r := CheckResponse(|abstractions|, response, load);
    ExecEndpointsInRange(|abstractions|, response, load);
  }

  method CheckResponse(bound: int, response: string, load: string -> Option<Value>)
    returns (r: Result<RelationshipData>)
    ensures r == ExecResult(bound, response, load)
  {
    var block := FencedYaml(response);
    if block.None? {
      return Err(NoYamlBlock);
    }
    var doc := load(block.value);
    if doc.None? {
      return Err(UnloadableYaml);
    }
    r := ValidateRelationshipData(bound, doc.value);
  }
}
