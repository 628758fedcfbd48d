/** IdentifyAbstractions (nodes.py:88-217): the validation of the abstraction
    list the language model returns. */
module IdentifyAbstractions {
  import opened Outcome
  import opened Text
  import opened Yaml
  import opened IndexEntries
  import opened SortedSets

  /** `{"name": str, "description": str, "files": [int]}`. */
  datatype Abstraction = Abstraction(name: string, description: string, files: seq<int>)

  /** `isinstance(item, dict) and all(k in item for k in ["name", "description", "file_indices"])`. */
  predicate HasItemKeys(item: Value) {
    item.Map? && "name" in item.entries && "description" in item.entries && "file_indices" in item.entries
  }

  /** One item of the list: required keys, the types of its fields, every
      file index parsed and within `[0, fileCount)`; then the trimmed name and
      description and `sorted(set(indices))`. */
  function ValidateItem(fileCount: int, item: Value): Result<Abstraction> {
    if !HasItemKeys(item) then Err(MissingKeys)
    else
      var name, description, indices :=
        item.entries["name"], item.entries["description"], item.entries["file_indices"];
      if !name.Str? then Err(NotAString("name"))
      else if !description.Str? then Err(NotAString("description"))
      else if !indices.List? then Err(FieldNotAList("file_indices"))
      else
        match MapAll(indices.items, IndexCheck(fileCount))
        case Err(e) => Err(e)
        case Ok(idx) => Ok(Abstraction(Strip(name.s), Strip(description.s), SortedDistinct(idx)))
  }

  function ItemCheck(fileCount: int): Value -> Result<Abstraction> {
    item => ValidateItem(fileCount, item)
  }

  /** The whole loaded document: a list, every item valid, first failure wins. */
  function ValidateAbstractions(fileCount: int, doc: Value): Result<seq<Abstraction>> {
    if !doc.List? then Err(NotAList) else MapAll(doc.items, ItemCheck(fileCount))
  }

  /** What an acceptable item is, stated without the validation order. */
  predicate WellFormedItem(fileCount: int, item: Value) {
    && HasItemKeys(item)
    && item.entries["name"].Str?
    && item.entries["description"].Str?
    && item.entries["file_indices"].List?
    && forall e :: e in item.entries["file_indices"].items ==>
         ParseIndexEntry(e).Some? && 0 <= ParseIndexEntry(e).value < fileCount
  }

  /** An item is accepted exactly when it is well formed. */
  lemma ItemAccepted(fileCount: int, item: Value)
    ensures ValidateItem(fileCount, item).Ok? <==> WellFormedItem(fileCount, item)
  {
    if HasItemKeys(item) && item.entries["file_indices"].List? {
      var entries := item.entries["file_indices"].items;
      var f := IndexCheck(fileCount);
      if !MapAll(entries, f).Ok? {
        var k :| 0 <= k < |entries| && f(entries[k]) == Err(MapAll(entries, f).error);
        assert entries[k] in entries;
      }
    }
  }

  /** The accepted item has the trimmed name and description, and lists every
      parsed index once, in ascending order. */
  lemma AcceptedItemShape(fileCount: int, item: Value)
    requires WellFormedItem(fileCount, item)
    ensures ValidateItem(fileCount, item).Ok?
    ensures var a := ValidateItem(fileCount, item).value;
            var entries := item.entries["file_indices"].items;
            && a.name == Strip(item.entries["name"].s)
            && a.description == Strip(item.entries["description"].s)
            && StrictlyIncreasing(a.files)
            && Elements(a.files) == ParsedValues(entries)
            && |a.files| == |ParsedValues(entries)|
            && (forall x :: x in a.files ==> 0 <= x < fileCount)
  {
    ItemAccepted(fileCount, item);
    var entries := item.entries["file_indices"].items;
    CheckedEntries(fileCount, entries);
    var idx := MapAll(entries, IndexCheck(fileCount)).value;
    var files := SortedDistinct(idx);
    assert ValidateItem(fileCount, item) ==
      Ok(Abstraction(Strip(item.entries["name"].s), Strip(item.entries["description"].s), files));
    assert Elements(files) == Elements(idx) == ParsedValues(entries);
    AscendingLength(files);
    assert forall x :: x in files ==> x in Elements(files);
  }

  /** The list is accepted exactly when every item is well formed, and then it
      has one abstraction per item, in order; otherwise the error is that of
      the first item that is not. */
  lemma AbstractionsAccepted(fileCount: int, doc: Value)
    ensures ValidateAbstractions(fileCount, doc).Ok? <==>
              doc.List? && forall k :: 0 <= k < |doc.items| ==> WellFormedItem(fileCount, doc.items[k])
    ensures ValidateAbstractions(fileCount, doc).Ok? ==>
              var r := ValidateAbstractions(fileCount, doc).value;
              |r| == |doc.items| && forall k :: 0 <= k < |r| ==> Ok(r[k]) == ValidateItem(fileCount, doc.items[k])
    ensures doc.List? && ValidateAbstractions(fileCount, doc).Err? ==>
              exists k :: && 0 <= k < |doc.items|
                          && !WellFormedItem(fileCount, doc.items[k])
                          && ValidateItem(fileCount, doc.items[k]) == Err(ValidateAbstractions(fileCount, doc).error)
                          && forall j :: 0 <= j < k ==> WellFormedItem(fileCount, doc.items[j])
  {
    if doc.List? {
      var items, f := doc.items, ItemCheck(fileCount);
      var ok := item => WellFormedItem(fileCount, item);
      forall k | 0 <= k < |items|
        ensures f(items[k]) == ValidateItem(fileCount, items[k])
        ensures f(items[k]).Ok? <==> ok(items[k])
      {
        ItemAccepted(fileCount, items[k]);
      }
      MapAllBy(items, f, ok);
    }
  }

  /** The inner loop over `file_indices` and the item's result. */
  method CheckItem(fileCount: int, item: Value) returns (r: Result<Abstraction>)
    ensures r == ValidateItem(fileCount, item)
  {
    if !HasItemKeys(item) {
      return Err(MissingKeys);
    }
    var name, description, indices :=
      item.entries["name"], item.entries["description"], item.entries["file_indices"];
    if !name.Str? {
      return Err(NotAString("name"));
    }
    if !description.Str? {
      return Err(NotAString("description"));
    }
    if !indices.List? {
      return Err(FieldNotAList("file_indices"));
    }
    var validated := Traverse(indices.items, IndexCheck(fileCount));
    match validated
    case Err(e) =>
      return Err(e);
    case Ok(idx) =>
      return Ok(Abstraction(Strip(name.s), Strip(description.s), SortedDistinct(idx)));
  }

  /** The outer loop of `exec`: items are validated in order and the first
      exception ends the stage. */
  method ValidateAbstractionList(fileCount: int, doc: Value) returns (r: Result<seq<Abstraction>>)
    ensures r == ValidateAbstractions(fileCount, doc)
  {
    if !doc.List? {
      return Err(NotAList);
    }
    var items := doc.items;
    var f := ItemCheck(fileCount);
    var validated: seq<Abstraction> := [];
    for i := 0 to |items|
      invariant MapAll(items[..i], f) == Ok(validated)
    {
      MapAllStep(items, i, f);
      var a := CheckItem(fileCount, items[i]);
      assert a == f(items[i]);
      if a.Err? {
        MapAllFirstError(items, i, f);
        return Err(a.error);
      }
      validated := validated + [a.value];
    }
    assert items[..|items|] == items;
    return Ok(validated);
  }

  /** `exec` after the language-model call: cut out the fenced YAML, load it
      (`load` stands for `yaml.safe_load`, `None` for a YAML error) and
      validate it against the number of crawled files. */
  method Exec(response: string, load: string -> Option<Value>, fileCount: int)
    returns (r: Result<seq<Abstraction>>)
    ensures FencedYaml(response).None? ==> r == Err(NoYamlBlock)
    ensures FencedYaml(response).Some? && load(FencedYaml(response).value).None? ==> r == Err(UnloadableYaml)
    ensures FencedYaml(response).Some? && load(FencedYaml(response).value).Some? ==>
              r == ValidateAbstractions(fileCount, load(FencedYaml(response).value).value)
  {
    var block := FencedYaml(response);
    if block.None? {
      return Err(NoYamlBlock);
    }
    var doc := load(block.value);
    if doc.None? {
      return Err(UnloadableYaml);
    }
    r := ValidateAbstractionList(fileCount, doc.value);
  }
}
