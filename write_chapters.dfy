/** WriteChapters (nodes.py:463-688): the chapter table and work items its
    `prep` builds, the normalisation of every chapter the language model
    writes, and the accumulator of chapters written so far. */
module WriteChapters {
  import opened Outcome
  import opened Text
  import opened PyInt
  import opened Yaml
  import opened FileContent
  import opened IdentifyAbstractions
  import opened ChapterOutput

  /** `"".join(c if c.isalnum() else "_" for c in name)`. */
  function Sanitized(name: string): (r: string)
    ensures |r| == |name|
    ensures forall i :: 0 <= i < |name| ==> r[i] == if IsAlnum(name[i]) then name[i] else '_'
  {
    seq(|name|, i requires 0 <= i < |name| => if IsAlnum(name[i]) then name[i] else '_')
  }

  /** `f"{safe_name}.mdc"` with `safe_name` the lower-cased sanitised name;
      WriteChapters and CombineTutorial both name chapter files this way. */
  function ChapterFilename(name: string): string {
    Lower(Sanitized(name)) + ".mdc"
  }

  /** A file name keeps the length of the chapter name, maps every character to
      a lower-case letter, a digit or "_", and ends in ".mdc". */
  lemma FilenameShape(name: string)
    ensures |ChapterFilename(name)| == |name| + 4
    ensures EndsWith(ChapterFilename(name), ".mdc")
    ensures forall i :: 0 <= i < |name| ==>
              ChapterFilename(name)[i] == if IsAlnum(name[i]) then ToLower(name[i]) else '_'
    ensures forall i :: 0 <= i < |name| ==>
              var c := ChapterFilename(name)[i]; ('a' <= c <= 'z') || ('0' <= c <= '9') || c == '_'
  {
    var f := ChapterFilename(name);
    assert f[|name|..] == ".mdc";
  }

  /** A name already made of lower-case letters, digits and "_" is its own
      file name, less the suffix. */
  lemma SafeNameKept(name: string)
    requires forall i :: 0 <= i < |name| ==> ('a' <= name[i] <= 'z') || ('0' <= name[i] <= '9') || name[i] == '_'
    ensures ChapterFilename(name) == name + ".mdc"
  {
    assert Lower(Sanitized(name)) == name;
  }

  /** `{"num": ..., "name": ..., "filename": ...}` of `chapter_filenames`. */
  datatype ChapterRef = ChapterRef(num: int, name: string, filename: string)

  function RefFor(num: int, name: string): ChapterRef {
    ChapterRef(num, name, ChapterFilename(name))
  }

  predicate InRange(abstractions: seq<Abstraction>, x: int) {
    0 <= x < |abstractions|
  }

  /** `chapter_filenames` after the first loop of `prep`: each in-range entry of
      the order, keyed by abstraction index, numbered by its 1-based position. */
  function ChapterTable(order: seq<int>, abstractions: seq<Abstraction>): map<int, ChapterRef>
    decreases |order|
  {
    if order == [] then map[]
    else
      var table := ChapterTable(order[..|order| - 1], abstractions);
      var x := order[|order| - 1];
      if InRange(abstractions, x) then table[x := RefFor(|order|, abstractions[x].name)] else table
  }

  /** `all_chapters`: a Markdown link per in-range entry of the order. */
  function ChapterLinks(order: seq<int>, abstractions: seq<Abstraction>): seq<string>
    decreases |order|
  {
    if order == [] then []
    else
      var links := ChapterLinks(order[..|order| - 1], abstractions);
      var x := order[|order| - 1];
      if InRange(abstractions, x) then
        links + ["[" + abstractions[x].name + "](" + ChapterFilename(abstractions[x].name) + ")"]
      else links
  }

  /** The table has an entry for exactly the in-range indices the order names. */
  lemma {:induction false} TableKeys(order: seq<int>, abstractions: seq<Abstraction>)
    ensures forall x :: x in ChapterTable(order, abstractions) <==> x in order && InRange(abstractions, x)
    decreases |order|
  {
    if order != [] {
      var prefix := order[..|order| - 1];
      TableKeys(prefix, abstractions);
      assert order == prefix + [order[|order| - 1]];
    }
  }

  /** For an order naming each abstraction at most once, the entry of an
      abstraction is its 1-based position in the order. */
  lemma {:induction false} TableEntries(order: seq<int>, abstractions: seq<Abstraction>)
    requires forall i, j :: 0 <= i < j < |order| ==> order[i] != order[j]
    ensures forall q :: 0 <= q < |order| && InRange(abstractions, order[q]) ==>
              order[q] in ChapterTable(order, abstractions) &&
              ChapterTable(order, abstractions)[order[q]] == RefFor(q + 1, abstractions[order[q]].name)
    decreases |order|
  {
    if order != [] {
      var prefix := order[..|order| - 1];
      TableEntries(prefix, abstractions);
      assert forall q :: 0 <= q < |prefix| ==> prefix[q] == order[q];
    }
  }

  /** One work item for `exec`. The project name and the chapter table are
      handed on for the prompt only and are not part of the model. */
  datatype ChapterItem = ChapterItem(
    chapterNum: int,
    abstractionIndex: int,
    abstraction: Abstraction,
    relatedFiles: map<string, string>,
    listing: string,
    prev: Option<ChapterRef>,
    next: Option<ChapterRef>)

  /** The item for position `i` of the order: none for an out-of-range entry,
      and a KeyError when a neighbour of an in-range entry has no table entry. */
  function ItemAt(order: seq<int>, abstractions: seq<Abstraction>, files: seq<File>,
                  table: map<int, ChapterRef>, listing: string, i: nat): Result<Option<ChapterItem>>
    requires i < |order|
  {
    var x := order[i];
    if !InRange(abstractions, x) then Ok(None)
    else
      if i > 0 && order[i - 1] !in table then Err(MissingChapterRef)
      else if i < |order| - 1 && order[i + 1] !in table then Err(MissingChapterRef)
      else
        Ok(Some(ChapterItem(i + 1, x, abstractions[x], ContentMap(files, abstractions[x].files),
                            listing,
                            if i > 0 then Some(table[order[i - 1]]) else None,
                            if i < |order| - 1 then Some(table[order[i + 1]]) else None)))
  }

  /** The items of the first `n` positions of the order, stopping at the first error. */
  function ItemsUpTo(order: seq<int>, abstractions: seq<Abstraction>, files: seq<File>,
                     table: map<int, ChapterRef>, listing: string, n: nat): Result<seq<ChapterItem>>
    requires n <= |order|
  {
    if n == 0 then Ok([])
    else
      match ItemsUpTo(order, abstractions, files, table, listing, n - 1)
      case Err(e) => Err(e)
      case Ok(items) =>
        match ItemAt(order, abstractions, files, table, listing, n - 1)
        case Err(e) => Err(e)
        case Ok(None) => Ok(items)
        case Ok(Some(item)) => Ok(items + [item])
  }

  /** `prep`'s list of work items. */
  function PrepItems(order: seq<int>, abstractions: seq<Abstraction>, files: seq<File>): Result<seq<ChapterItem>> {
    ItemsUpTo(order, abstractions, files, ChapterTable(order, abstractions),
              Join("\n", ChapterLinks(order, abstractions)), |order|)
  }

  /** Where an item sits: its number is a position of the order naming its
      abstraction, and it has a previous chapter unless it is the first
      position and a next one unless it is the last. */
  predicate Placed(order: seq<int>, abstractions: seq<Abstraction>, item: ChapterItem) {
    && 1 <= item.chapterNum <= |order|
    && item.abstractionIndex == order[item.chapterNum - 1]
    && InRange(abstractions, item.abstractionIndex)
    && item.abstraction == abstractions[item.abstractionIndex]
    && (item.prev.None? <==> item.chapterNum == 1)
    && (item.next.None? <==> item.chapterNum == |order|)
  }

  lemma ItemAtShape(order: seq<int>, abstractions: seq<Abstraction>, files: seq<File>,
      table: map<int, ChapterRef>, listing: string, i: nat)
    requires i < |order|
    ensures ItemAt(order, abstractions, files, table, listing, i) == Ok(None) <==> !InRange(abstractions, order[i])
    ensures var r := ItemAt(order, abstractions, files, table, listing, i);
            r.Ok? && r.value.Some? ==> Placed(order, abstractions, r.value.value) && r.value.value.chapterNum == i + 1
  {
  }

  /** Every item is placed, at one of the first `n` positions. */
  predicate AllPlaced(order: seq<int>, abstractions: seq<Abstraction>, items: seq<ChapterItem>, n: nat) {
    forall k :: 0 <= k < |items| ==> Placed(order, abstractions, items[k]) && items[k].chapterNum <= n
  }

  predicate Ascending(items: seq<ChapterItem>) {
    forall j, k :: 0 <= j < k < |items| ==> items[j].chapterNum < items[k].chapterNum
  }

  /** Every in-range entry among the first `n` positions has its item. */
  predicate Covers(order: seq<int>, abstractions: seq<Abstraction>, items: seq<ChapterItem>, n: nat)
    requires n <= |order|
  {
    forall p :: 0 <= p < n && InRange(abstractions, order[p]) ==>
      exists k :: 0 <= k < |items| && items[k].chapterNum == p + 1
  }

  /** The three facts together: the items follow the first `n` positions of the order. */
  predicate FollowsOrder(order: seq<int>, abstractions: seq<Abstraction>, items: seq<ChapterItem>, n: nat)
    requires n <= |order|
  {
    AllPlaced(order, abstractions, items, n) && Ascending(items) && Covers(order, abstractions, items, n)
  }

  lemma ItemsStep(order: seq<int>, abstractions: seq<Abstraction>, files: seq<File>,
      table: map<int, ChapterRef>, listing: string, n: nat)
    requires 0 < n <= |order| && ItemsUpTo(order, abstractions, files, table, listing, n).Ok?
    ensures ItemsUpTo(order, abstractions, files, table, listing, n - 1).Ok?
    ensures ItemAt(order, abstractions, files, table, listing, n - 1).Ok?
    ensures var items, at := ItemsUpTo(order, abstractions, files, table, listing, n - 1).value, ItemAt(order, abstractions, files, table, listing, n - 1).value;
            ItemsUpTo(order, abstractions, files, table, listing, n).value == if at.Some? then items + [at.value] else items
  {
  }

  lemma PlacedStep(order: seq<int>, abstractions: seq<Abstraction>, items: seq<ChapterItem>, n: nat, next: seq<ChapterItem>)
    requires 0 < n <= |order|
    requires AllPlaced(order, abstractions, items, n - 1) && Ascending(items)
    requires |next| <= 1 && forall k :: 0 <= k < |next| ==> Placed(order, abstractions, next[k]) && next[k].chapterNum == n
    ensures AllPlaced(order, abstractions, items + next, n) && Ascending(items + next)
  {
    var all := items + next;
    forall k | 0 <= k < |all| ensures Placed(order, abstractions, all[k]) && all[k].chapterNum <= n {
      if k < |items| {
        assert all[k] == items[k];
      } else {
        assert all[k] == next[k - |items|];
      }
    }
    forall j, k | 0 <= j < k < |all| ensures all[j].chapterNum < all[k].chapterNum {
      assert all[j] == items[j];
      if k < |items| {
        assert all[k] == items[k];
      } else {
        assert all[k] == next[0];
      }
    }
  }

  lemma CoversStep(order: seq<int>, abstractions: seq<Abstraction>, items: seq<ChapterItem>, n: nat, next: seq<ChapterItem>)
    requires 0 < n <= |order|
    requires Covers(order, abstractions, items, n - 1)
    requires InRange(abstractions, order[n - 1]) ==> |next| == 1 && next[0].chapterNum == n
    ensures Covers(order, abstractions, items + next, n)
  {
    var all := items + next;
    forall p | 0 <= p < n && InRange(abstractions, order[p])
      ensures exists k :: 0 <= k < |all| && all[k].chapterNum == p + 1
    {
      if p < n - 1 {
        var k :| 0 <= k < |items| && items[k].chapterNum == p + 1;
        assert all[k] == items[k];
      } else {
        assert all[|items|] == next[0];
      }
    }
  }

  lemma FollowStep(order: seq<int>, abstractions: seq<Abstraction>, items: seq<ChapterItem>,
                   at: Option<ChapterItem>, n: nat, all: seq<ChapterItem>)
    requires 0 < n <= |order|
    requires FollowsOrder(order, abstractions, items, n - 1)
    requires at.None? <==> !InRange(abstractions, order[n - 1])
    requires at.Some? ==> Placed(order, abstractions, at.value) && at.value.chapterNum == n
    requires all == if at.Some? then items + [at.value] else items
    ensures FollowsOrder(order, abstractions, all, n)
  {
    var next := if at.Some? then [at.value] else [];
    assert all == items + next;
    PlacedStep(order, abstractions, items, n, next);
    CoversStep(order, abstractions, items, n, next);
  }

  /** Items exist only for in-range entries of the order, in the order's
      order; an item's number is its 1-based position; the first position has
      no previous chapter and the last no next one; and every in-range entry
      has its item. */
  lemma {:induction false} ItemsFollowOrder(order: seq<int>, abstractions: seq<Abstraction>, files: seq<File>,
      table: map<int, ChapterRef>, listing: string, n: nat)
    requires n <= |order|
    ensures var r := ItemsUpTo(order, abstractions, files, table, listing, n);
            r.Ok? ==> FollowsOrder(order, abstractions, r.value, n)
    decreases n
  {
    var r := ItemsUpTo(order, abstractions, files, table, listing, n);
    if n > 0 && r.Ok? {
      ItemsStep(order, abstractions, files, table, listing, n);
      ItemsFollowOrder(order, abstractions, files, table, listing, n - 1);
      ItemAtShape(order, abstractions, files, table, listing, n - 1);
      var prev := ItemsUpTo(order, abstractions, files, table, listing, n - 1).value;
      var at := ItemAt(order, abstractions, files, table, listing, n - 1).value;
      FollowStep(order, abstractions, prev, at, n, r.value);
    }
  }


  /** `ItemsUpTo` succeeds exactly when every position it covers does. */
  lemma {:induction false} ItemsUpToOk(order: seq<int>, abstractions: seq<Abstraction>, files: seq<File>,
      table: map<int, ChapterRef>, listing: string, n: nat)
    requires n <= |order|
    ensures ItemsUpTo(order, abstractions, files, table, listing, n).Ok? <==>
              forall i :: 0 <= i < n ==> ItemAt(order, abstractions, files, table, listing, i).Ok?
    decreases n
  {
    if n > 0 {
      ItemsUpToOk(order, abstractions, files, table, listing, n - 1);
    }
  }

  /** A position fails exactly when its entry is in range and a neighbour's is not. */
  lemma ItemAtFails(order: seq<int>, abstractions: seq<Abstraction>, files: seq<File>, i: nat)
    requires i < |order|
    ensures var table, listing := ChapterTable(order, abstractions), Join("\n", ChapterLinks(order, abstractions));
            ItemAt(order, abstractions, files, table, listing, i).Err? <==>
              && InRange(abstractions, order[i])
              && ((i > 0 && !InRange(abstractions, order[i - 1])) ||
                  (i < |order| - 1 && !InRange(abstractions, order[i + 1])))
  {
    TableKeys(order, abstractions);
  }

  /** Neighbouring entries are both in range or both out of range exactly
      when all of them are in range or none is. */
  lemma {:induction false} AllOrNone(order: seq<int>, abstractions: seq<Abstraction>)
    ensures NeighboursAgree(order, abstractions) <==>
            ((forall i :: 0 <= i < |order| ==> InRange(abstractions, order[i])) ||
             (forall i :: 0 <= i < |order| ==> !InRange(abstractions, order[i])))
    decreases |order|
  {
    if |order| > 1 {
      var tail := order[1..];
      AllOrNone(tail, abstractions);
      assert forall i :: 0 <= i < |tail| ==> tail[i] == order[i + 1];
      if NeighboursAgree(order, abstractions) {
        assert NeighboursAgree(tail, abstractions);
        assert InRange(abstractions, order[0]) <==> InRange(abstractions, tail[0]);
      }
    }
  }

  /** Position `i` does not fail: its entry is out of range, or so are
      none of its neighbours' entries. */
  predicate PositionOk(order: seq<int>, abstractions: seq<Abstraction>, i: nat)
    requires i < |order|
  {
    !(InRange(abstractions, order[i]) &&
      ((i > 0 && !InRange(abstractions, order[i - 1])) || (i < |order| - 1 && !InRange(abstractions, order[i + 1]))))
  }

  predicate NeighboursAgree(order: seq<int>, abstractions: seq<Abstraction>) {
    forall i :: 0 <= i < |order| - 1 ==> (InRange(abstractions, order[i]) <==> InRange(abstractions, order[i + 1]))
  }

  lemma PrepOkAtEveryPosition(order: seq<int>, abstractions: seq<Abstraction>, files: seq<File>)
    ensures PrepItems(order, abstractions, files).Ok? <==> forall i :: 0 <= i < |order| ==> PositionOk(order, abstractions, i)
  {
    var table, listing := ChapterTable(order, abstractions), Join("\n", ChapterLinks(order, abstractions));
    ItemsUpToOk(order, abstractions, files, table, listing, |order|);
    forall i | 0 <= i < |order|
      ensures ItemAt(order, abstractions, files, table, listing, i).Ok? <==> PositionOk(order, abstractions, i)
    {
      ItemAtFails(order, abstractions, files, i);
    }
  }

  lemma PositionsOkIffNeighboursAgree(order: seq<int>, abstractions: seq<Abstraction>)
    ensures (forall i :: 0 <= i < |order| ==> PositionOk(order, abstractions, i)) <==> NeighboursAgree(order, abstractions)
  {
    if !NeighboursAgree(order, abstractions) {
      var i :| 0 <= i < |order| - 1 && !(InRange(abstractions, order[i]) <==> InRange(abstractions, order[i + 1]));
      if InRange(abstractions, order[i]) {
        assert !PositionOk(order, abstractions, i);
      } else {
        assert !PositionOk(order, abstractions, i + 1);
      }
    }
  }

  /** `prep` fails with a KeyError exactly when the order mixes in-range and
      out-of-range entries: it succeeds when every entry names an
      abstraction, or when none does (and then has no items). */
  lemma PrepSucceeds(order: seq<int>, abstractions: seq<Abstraction>, files: seq<File>)
    ensures PrepItems(order, abstractions, files).Ok? <==>
              (forall i :: 0 <= i < |order| ==> InRange(abstractions, order[i])) ||
              (forall i :: 0 <= i < |order| ==> !InRange(abstractions, order[i]))
  {
    PrepOkAtEveryPosition(order, abstractions, files);
    PositionsOkIffNeighboursAgree(order, abstractions);
    AllOrNone(order, abstractions);
  }

  /** Once a position fails, the items of every longer prefix fail the same way. */
  lemma {:induction false} ErrorPersists(order: seq<int>, abstractions: seq<Abstraction>, files: seq<File>,
      table: map<int, ChapterRef>, listing: string, n: nat, m: nat)
    requires n <= m <= |order| && ItemsUpTo(order, abstractions, files, table, listing, n).Err?
    ensures ItemsUpTo(order, abstractions, files, table, listing, m) == ItemsUpTo(order, abstractions, files, table, listing, n)
    decreases m - n
  {
    if n < m {
      ErrorPersists(order, abstractions, files, table, listing, n + 1, m);
    }
  }

  /** With every entry in range, each position has its item. */
  lemma {:induction false} ItemsAllInRange(order: seq<int>, abstractions: seq<Abstraction>, files: seq<File>,
      table: map<int, ChapterRef>, listing: string, n: nat)
    requires n <= |order|
    requires forall i :: 0 <= i < |order| ==> InRange(abstractions, order[i]) && order[i] in table
    ensures var r := ItemsUpTo(order, abstractions, files, table, listing, n);
            && r.Ok? && |r.value| == n
            && forall p :: 0 <= p < n ==> Some(r.value[p]) == ItemAt(order, abstractions, files, table, listing, p).value
    decreases n
  {
    if n > 0 {
      ItemsAllInRange(order, abstractions, files, table, listing, n - 1);
    }
  }

  /** The item an order naming each abstraction once has at position `p`. */
  function ExpectedItem(order: seq<int>, abstractions: seq<Abstraction>, files: seq<File>, p: nat): ChapterItem
    requires p < |order| && forall i :: 0 <= i < |order| ==> 0 <= order[i] < |abstractions|
  {
    ChapterItem(p + 1, order[p], abstractions[order[p]], ContentMap(files, abstractions[order[p]].files),
                Join("\n", ChapterLinks(order, abstractions)),
                if p == 0 then None else Some(RefFor(p, abstractions[order[p - 1]].name)),
                if p == |order| - 1 then None else Some(RefFor(p + 2, abstractions[order[p + 1]].name)))
  }

  lemma ItemOfValidOrder(order: seq<int>, abstractions: seq<Abstraction>, files: seq<File>, p: nat)
    requires p < |order| && forall i :: 0 <= i < |order| ==> 0 <= order[i] < |abstractions|
    requires forall i, j :: 0 <= i < j < |order| ==> order[i] != order[j]
    ensures ItemAt(order, abstractions, files, ChapterTable(order, abstractions),
                   Join("\n", ChapterLinks(order, abstractions)), p) == Ok(Some(ExpectedItem(order, abstractions, files, p)))
  {
    TableKeys(order, abstractions);
    TableEntries(order, abstractions);
    assert InRange(abstractions, order[p]);
    if p > 0 {
      assert InRange(abstractions, order[p - 1]);
    }
    if p < |order| - 1 {
      assert InRange(abstractions, order[p + 1]);
    }
  }

  /** For an order naming each abstraction once, as OrderChapters produces,
      there is one item per position: item `p` is chapter `p + 1`, with the
      abstraction's files, and links to the chapters before and after it;
      the first has no previous chapter and the last no next one. */
  lemma PrepItemsOfValidOrder(order: seq<int>, abstractions: seq<Abstraction>, files: seq<File>)
    requires forall i :: 0 <= i < |order| ==> 0 <= order[i] < |abstractions|
    requires forall i, j :: 0 <= i < j < |order| ==> order[i] != order[j]
    ensures var r := PrepItems(order, abstractions, files);
            && r.Ok? && |r.value| == |order|
            && forall p :: 0 <= p < |order| ==> r.value[p] == ExpectedItem(order, abstractions, files, p)
  {
    var table, listing := ChapterTable(order, abstractions), Join("\n", ChapterLinks(order, abstractions));
    TableKeys(order, abstractions);
    assert forall i :: 0 <= i < |order| ==> InRange(abstractions, order[i]) && order[i] in table;
    ItemsAllInRange(order, abstractions, files, table, listing, |order|);
    forall p | 0 <= p < |order|
      ensures ItemAt(order, abstractions, files, table, listing, p) == Ok(Some(ExpectedItem(order, abstractions, files, p)))
    {
      ItemOfValidOrder(order, abstractions, files, p);
    }
  }

  /** The first loop of `prep`: the chapter table and the links. */
  method BuildTable(order: seq<int>, abstractions: seq<Abstraction>)
    returns (table: map<int, ChapterRef>, links: seq<string>)
    ensures table == ChapterTable(order, abstractions)
    ensures links == ChapterLinks(order, abstractions)
  {
    table, links := map[], [];
    for i := 0 to |order|
      invariant table == ChapterTable(order[..i], abstractions)
      invariant links == ChapterLinks(order[..i], abstractions)
    {
      assert order[..i + 1][..i] == order[..i];
      var x := order[i];
      if 0 <= x < |abstractions| {
        var name := abstractions[x].name;
        var filename := ChapterFilename(name);
        links := links + ["[" + name + "](" + filename + ")"];
        table := table[x := ChapterRef(i + 1, name, filename)];
      }
    }
    assert order[..|order|] == order;
  }

  /** The second loop of `prep`: one item per in-range entry, with its
      neighbours looked up in the table. */
  method BuildItems(order: seq<int>, abstractions: seq<Abstraction>, files: seq<File>,
                    table: map<int, ChapterRef>, listing: string)
    returns (r: Result<seq<ChapterItem>>)
    ensures r == ItemsUpTo(order, abstractions, files, table, listing, |order|)
  {
    var items: seq<ChapterItem> := [];
    for i := 0 to |order|
      invariant ItemsUpTo(order, abstractions, files, table, listing, i) == Ok(items)
    {
      var x := order[i];
      if 0 <= x < |abstractions| {
        var related := GetContentForIndices(files, abstractions[x].files);
        var prev: Option<ChapterRef> := None;
        if i > 0 {
          if order[i - 1] !in table {
            assert ItemAt(order, abstractions, files, table, listing, i).Err?;
            ErrorPersists(order, abstractions, files, table, listing, i + 1, |order|);
            return Err(MissingChapterRef);
          }
          prev := Some(table[order[i - 1]]);
        }
        var next: Option<ChapterRef> := None;
        if i < |order| - 1 {
          if order[i + 1] !in table {
            assert ItemAt(order, abstractions, files, table, listing, i).Err?;
            ErrorPersists(order, abstractions, files, table, listing, i + 1, |order|);
            return Err(MissingChapterRef);
          }
          next := Some(table[order[i + 1]]);
        }
        items := items + [ChapterItem(i + 1, x, abstractions[x], related, listing, prev, next)];
      }
    }
    return Ok(items);
  }

  /** The chapter `exec` produces from the model's response: the chapter
      rule's block, loaded and cleaned up, headed by the item's number and
      abstraction name. */
  function ChapterResult(item: ChapterItem, response: string, load: string -> Option<Value>): Result<string> {
    match ChapterYaml(response)
    case None => Err(NoYamlBlock)
    case Some(block) =>
      match load(block)
      case None => Err(UnloadableYaml)
      case Some(doc) => NormalizeChapter(item.chapterNum, item.abstraction.name, doc)
  }

  /** The text of the chapters written so far that each `exec` hands the model. */
  function PreviousChapters(written: seq<string>): string {
    Join("\n---\n", written)
  }

  /** The chapter writer: `chapters_written_so_far` is `None` while the
      attribute does not exist. */
  class ChapterWriter {
    var written: Option<seq<string>>

    constructor ()
      ensures written == None
    {
      written := None;
    }

    /** `prep`: resets the accumulator, builds the chapter table and the
        listing of links, then one work item per in-range entry. */
    method Prep(order: seq<int>, abstractions: seq<Abstraction>, files: seq<File>)
      returns (r: Result<seq<ChapterItem>>)
      modifies this
      ensures written == Some([])
      ensures r == PrepItems(order, abstractions, files)
    {
      written := Some([]);
      var table, links := BuildTable(order, abstractions);
      r := BuildItems(order, abstractions, files, table, Join("\n", links));
    }

    /** `exec` for one item: reads the chapters written so far (an
        AttributeError when `prep` has not set them), asks the model with them,
        cleans up its answer and, when that succeeds, appends the chapter to
        the accumulator. */
    method Exec(item: ChapterItem, llm: (ChapterItem, string) -> string, load: string -> Option<Value>)
      returns (r: Result<string>)
      modifies this
      ensures old(written).None? ==> r == Err(AttributeMissing) && written == None
      ensures old(written).Some? ==>
                r == ChapterResult(item, llm(item, PreviousChapters(old(written).value)), load)
      ensures old(written).Some? && r.Ok? ==> written == Some(old(written).value + [r.value])
      ensures r.Err? ==> written == old(written)
    {
      if written.None? {
        return Err(AttributeMissing);
      }
      var previous := PreviousChapters(written.value);
      var response := llm(item, previous);
      var block := ChapterYaml(response);
      if block.None? {
        return Err(NoYamlBlock);
      }
      var doc := load(block.value);
      if doc.None? {
        return Err(UnloadableYaml);
      }
      r := NormalizeChapter(item.chapterNum, item.abstraction.name, doc.value);
      if r.Ok? {
        written := Some(written.value + [r.value]);
      }
    }

    /** `post`: hands on the chapters and deletes the accumulator, which
        raises AttributeError when it does not exist. The chapters are stored
        in the shared store before the deletion, so they are stored on the
        error path too; the shared store is not part of this model. */
    method Post(chapters: seq<string>) returns (r: Result<seq<string>>)
      modifies this
      ensures r == if old(written).Some? then Ok(chapters) else Err(AttributeMissing)
      ensures written == None
    {
      r := if written.Some? then Ok(chapters) else Err(AttributeMissing);
      written := None;
    }
  }
}
