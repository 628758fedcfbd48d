/** OrderChapters (nodes.py:362-461): the order in which the tutorial explains
    the abstractions, and the relationship lookups its `prep` performs. */
module OrderChapters {
  import opened Outcome
  import opened Yaml
  import opened IndexEntries
  import opened SortedSets
  import IdentifyAbstractions
  import AnalyzeRelationships

  /** No value occurs twice. */
  predicate Distinct(s: seq<int>) {
    forall i, j :: 0 <= i < j < |s| ==> s[i] != s[j]
  }

  /** `set(range(n))`. */
  function RangeSet(n: nat): (r: set<int>)
    ensures forall x :: x in r <==> 0 <= x < n
  {
    if n == 0 then {} else RangeSet(n - 1) + {n - 1}
  }

  lemma {:induction false} RangeCard(n: nat)
    ensures |RangeSet(n)| == n
  {
    if n > 0 {
      var prev := RangeSet(n - 1);
      RangeCard(n - 1);
      assert n - 1 !in prev;
      CardAddFresh(prev, n - 1);
    }
  }

  lemma CardAddFresh(a: set<int>, x: int)
    requires x !in a
    ensures |a + {x}| == |a| + 1
  {
  }

  lemma {:induction false} DistinctCard(s: seq<int>)
    requires Distinct(s)
    ensures |Elements(s)| == |s|
    decreases |s|
  {
    if s != [] {
      var prefix := s[..|s| - 1];
      assert Distinct(prefix);
      DistinctCard(prefix);
      assert s == prefix + [s[|s| - 1]];
      assert Elements(s) == Elements(prefix) + {s[|s| - 1]};
      assert s[|s| - 1] !in Elements(prefix);
    }
  }

  lemma SubsetCard(a: set<int>, b: set<int>)
    requires a <= b
    ensures |a| <= |b|
    ensures |a| == |b| ==> a == b
  {
    assert a * b == a && a + b == b && a - b == {};
    assert |b - a| + |a| == |b|;
    if |a| == |b| {
      assert b - a == {};
    }
  }

  /** Pigeonhole: distinct values drawn from `[0, n)` number at most `n`, and
      exactly `n` of them take every value of the range. */
  lemma DistinctInRange(s: seq<int>, n: nat)
    requires Distinct(s) && forall k :: 0 <= k < |s| ==> 0 <= s[k] < n
    ensures |s| <= n
    ensures |s| == n ==> forall x :: 0 <= x < n ==> x in s
  {
    DistinctCard(s);
    RangeCard(n);
    assert Elements(s) <= RangeSet(n);
    SubsetCard(Elements(s), RangeSet(n));
    if |s| == n {
      forall x | 0 <= x < n ensures x in s {
        assert x in RangeSet(n);
      }
    }
  }

  /** The validation of the order: a list whose entries name abstractions by
      the entry rule, each in range and none twice, and every one of the `n`
      abstractions. */
  function ValidateOrder(n: int, doc: Value): Result<seq<int>> {
    if !doc.List? then Err(NotAList)
    else
      match MapAll(doc.items, IndexCheck(n))
      case Err(e) => Err(e)
      case Ok(order) =>
        if !Distinct(order) then Err(UnparsableIndex)
        else if |order| != n then Err(LengthMismatch)
        else Ok(order)
  }

  /** A repeated entry, however far into the list, makes the validation fail
      with the same error as an unparsable one. */
  lemma DuplicateRejected(n: int, items: seq<Value>, i: nat, order: seq<int>, x: int)
    requires i < |items| && MapAll(items[..i], IndexCheck(n)) == Ok(order)
    requires CheckIndex(n, items[i]) == Ok(x) && x in order
    ensures ValidateOrder(n, List(items)) == Err(UnparsableIndex)
  {
    var f := IndexCheck(n);
    var all := MapAll(items, f);
    if all.Ok? {
      var j :| 0 <= j < |order| && order[j] == x;
      assert items[..i][j] == items[j];
      assert all.value[j] == x && all.value[i] == x;
    }
  }

  /** One more entry that parses to an index not seen before. */
  lemma OrderStep(n: int, items: seq<Value>, i: nat, order: seq<int>, x: int)
    requires i < |items| && MapAll(items[..i], IndexCheck(n)) == Ok(order) && Distinct(order)
    requires CheckIndex(n, items[i]) == Ok(x) && x !in order
    ensures MapAll(items[..i + 1], IndexCheck(n)) == Ok(order + [x]) && Distinct(order + [x])
  {
    MapAllStep(items, i, IndexCheck(n));
    assert IndexCheck(n)(items[i]) == Ok(x);
    var o := order + [x];
    forall j, k | 0 <= j < k < |o| ensures o[j] != o[k] {
      if k == |order| {
        assert o[j] == order[j];
      } else {
        assert o[j] == order[j] && o[k] == order[k];
      }
    }
  }

  /** `exec`'s loop over the entries, with the set of indices seen so far. */
  method CheckOrder(n: int, doc: Value) returns (r: Result<seq<int>>)
    ensures r == ValidateOrder(n, doc)
  {
    if !doc.List? {
      return Err(NotAList);
    }
    var items := doc.items;
    var order: seq<int> := [];
    var seen: set<int> := {};
    for i := 0 to |items|
      invariant MapAll(items[..i], IndexCheck(n)) == Ok(order)
      invariant Distinct(order)
      invariant forall x :: x in seen <==> x in order
    {
      var c := CheckIndex(n, items[i]);
      assert IndexCheck(n)(items[i]) == c;
      if c.Err? {
        MapAllFirstError(items, i, IndexCheck(n));
        return Err(UnparsableIndex);
      }
      if c.value in seen {
        DuplicateRejected(n, items, i, order, c.value);
        return Err(UnparsableIndex);
      }
      OrderStep(n, items, i, order, c.value);
      order := order + [c.value];
      seen := seen + {c.value};
    }
    assert items[..|items|] == items;
    assert MapAll(items, IndexCheck(n)) == Ok(order);
    if |order| != n {
      return Err(LengthMismatch);
    }
    return Ok(order);
  }

  /** The order is accepted exactly when the document is a list of `n`
      entries that parse to distinct indices within range; it is then a
      permutation of `0..n-1` in the order of the entries. A length mismatch
      always means abstractions are missing, never that there are too many. */
  lemma OrderAccepted(n: nat, doc: Value)
    ensures ValidateOrder(n, doc).Ok? <==>
              && doc.List?
              && (forall k :: 0 <= k < |doc.items| ==>
                    ParseIndexEntry(doc.items[k]).Some? && 0 <= ParseIndexEntry(doc.items[k]).value < n)
              && (forall j, k :: 0 <= j < k < |doc.items| ==>
                    ParseIndexEntry(doc.items[j]) != ParseIndexEntry(doc.items[k]))
              && |doc.items| == n
    ensures ValidateOrder(n, doc).Ok? ==>
              var order := ValidateOrder(n, doc).value;
              && |order| == n
              && (forall k :: 0 <= k < n ==> order[k] == ParseIndexEntry(doc.items[k]).value)
              && (forall x :: 0 <= x < n <==> x in order)
    ensures ValidateOrder(n, doc) == Err(LengthMismatch) ==> doc.List? && |doc.items| < n
  {
    if doc.List? {
      var f := IndexCheck(n);
      var all := MapAll(doc.items, f);
      forall k | 0 <= k < |doc.items|
        ensures f(doc.items[k]).Ok? <==>
                  ParseIndexEntry(doc.items[k]).Some? && 0 <= ParseIndexEntry(doc.items[k]).value < n
      {
      }
      if all.Ok? {
        CheckedEntries(n, doc.items);
        var order := all.value;
        if Distinct(order) {
          DistinctInRange(order, n);
        }
      }
    }
  }

  /** Python's `abstractions[i]` succeeds for `-n <= i < n`. */
  predicate Indexable(n: int, i: int) {
    -n <= i < n
  }

  /** `prep` looks up both ends of every relationship in the abstraction list
      and stops with IndexError at the first that is not there; it then hands
      on the number of abstractions. Its other outputs are prompt text. */
  function PrepResult(abstractions: seq<IdentifyAbstractions.Abstraction>,
                      relationships: AnalyzeRelationships.RelationshipData): Result<nat> {
    if forall k :: 0 <= k < |relationships.details| ==>
         Indexable(|abstractions|, relationships.details[k].fromIndex) &&
         Indexable(|abstractions|, relationships.details[k].toIndex)
    then Ok(|abstractions|)
    else Err(IndexOutOfRange)
  }

  method Prep(abstractions: seq<IdentifyAbstractions.Abstraction>,
              relationships: AnalyzeRelationships.RelationshipData) returns (r: Result<nat>)
    ensures r == PrepResult(abstractions, relationships)
  {
    var details := relationships.details;
    for i := 0 to |details|
      invariant forall k :: 0 <= k < i ==>
                  Indexable(|abstractions|, details[k].fromIndex) && Indexable(|abstractions|, details[k].toIndex)
    {
      if !Indexable(|abstractions|, details[i].fromIndex) || !Indexable(|abstractions|, details[i].toIndex) {
        return Err(IndexOutOfRange);
      }
    }
    return Ok(|abstractions|);
  }

  /** What `exec` returns for a response, given the number of abstractions. */
  function ExecResult(n: int, response: string, load: string -> Option<Value>): Result<seq<int>> {
    match FencedYaml(response)
    case None => Err(NoYamlBlock)
    case Some(block) =>
      match load(block)
      case None => Err(UnloadableYaml)
      case Some(doc) => ValidateOrder(n, doc)
  }

  method Exec(response: string, load: string -> Option<Value>, n: int) returns (r: Result<seq<int>>)
    ensures FencedYaml(response).None? ==> r == Err(NoYamlBlock)
    ensures FencedYaml(response).Some? && load(FencedYaml(response).value).None? ==> r == Err(UnloadableYaml)
    ensures r == ExecResult(n, response, load)
  {
    var block := FencedYaml(response);
    if block.None? {
      return Err(NoYamlBlock);
    }
    var doc := load(block.value);
    if doc.None? {
      return Err(UnloadableYaml);
    }
    r := CheckOrder(n, doc.value);
  }

  /** A relationship document naming abstraction 0 on both ends. */
  const SelfRelationship: Value :=
    Map(map["summary" := Str("s"),
            "relationships" := List([Map(map["from_abstraction" := Int(0),
                                              "to_abstraction" := Int(0),
                                              "label" := Str("uses")])])])

  /** The relationship check as written counts the lines of the listing: with
      no abstractions the listing is the empty string, which still has one
      line, so a relationship from abstraction 0 to itself is accepted and
      the next stage's `prep` fails on the lookup `abstractions[0]`. */
  lemma EmptyListingAdmitsRelationship()
    ensures AnalyzeRelationships.LineCount(AnalyzeRelationships.AbstractionListing([])) == 1
    ensures AnalyzeRelationships.ValidateRelationships(
              AnalyzeRelationships.LineCount(AnalyzeRelationships.AbstractionListing([])), SelfRelationship) ==
            Ok(AnalyzeRelationships.RelationshipData("s", [AnalyzeRelationships.Relationship(0, 0, "uses")]))
    ensures PrepResult([], AnalyzeRelationships.RelationshipData("s", [AnalyzeRelationships.Relationship(0, 0, "uses")])) ==
            Err(IndexOutOfRange)
  {
    AnalyzeRelationships.ListingLineCount([]);
    SelfRelationshipAccepted();
  }

  lemma SelfRelationshipAccepted()
    ensures AnalyzeRelationships.ValidateRelationships(1, SelfRelationship) ==
            Ok(AnalyzeRelationships.RelationshipData("s", [AnalyzeRelationships.Relationship(0, 0, "uses")]))
  {
    var rels := [Map(map["from_abstraction" := Int(0), "to_abstraction" := Int(0), "label" := Str("uses")])];
    assert SelfRelationship.entries["relationships"] == List(rels);
    assert SelfRelationship.entries["summary"] == Str("s");
    var rel := rels[0];
    assert rel.entries["from_abstraction"] == Int(0) && rel.entries["to_abstraction"] == Int(0);
    assert rel.entries["label"] == Str("uses");
    EndpointAgreesWithEntry(Int(0));
    assert AnalyzeRelationships.CheckRelationship(1, rel) == Ok(AnalyzeRelationships.Relationship(0, 0, "uses"));
    var f := AnalyzeRelationships.RelationshipCheck(1);
    assert f(rel) == Ok(AnalyzeRelationships.Relationship(0, 0, "uses"));
    MapAllSingle(rel, f);
    assert MapAll(rels, f) ==
           Ok([AnalyzeRelationships.Relationship(0, 0, "uses")]);
  }

  /** With the count of abstractions taken from the list itself, every
      relationship that passes validation can be looked up by the next stage. */
  lemma CorrectedRelationshipsIndexable(abstractions: seq<IdentifyAbstractions.Abstraction>,
                                        response: string, load: string -> Option<Value>)
    ensures AnalyzeRelationships.ExecResult(|abstractions|, response, load).Ok? ==>
              PrepResult(abstractions, AnalyzeRelationships.ExecResult(|abstractions|, response, load).value) ==
              Ok(|abstractions|)
  {
    var r := AnalyzeRelationships.ExecResult(|abstractions|, response, load);
    if r.Ok? {
      AnalyzeRelationships.ExecEndpointsInRange(|abstractions|, response, load);
      EndpointsIndexable(abstractions, r.value);
    }
  }

  lemma EndpointsIndexable(abstractions: seq<IdentifyAbstractions.Abstraction>,
                           relationships: AnalyzeRelationships.RelationshipData)
    requires forall k :: 0 <= k < |relationships.details| ==>
               0 <= relationships.details[k].fromIndex < |abstractions| &&
               0 <= relationships.details[k].toIndex < |abstractions|
    ensures PrepResult(abstractions, relationships) == Ok(|abstractions|)
  {
  }
}
