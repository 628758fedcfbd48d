/** `get_content_for_indices` (nodes.py:16-24): the contents of the selected
    files, keyed by "index # path". */
module FileContent {
  import opened Text
  import opened PyInt
  import opened IndexEntries

  /** One crawled file: a `(path, content)` pair of `files_data`. */
  datatype File = File(path: string, content: string)

  /** Different index-and-path pairs give different keys: no entry of the map
      overwrites another with different content. */
  lemma KeyInjective(i: int, p: string, j: int, q: string)
    requires Tagged(i, p) == Tagged(j, q)
    ensures i == j && p == q
  {
    var di, dj := DecimalString(i), DecimalString(j);
    DecimalLacks(i, ' ');
    DecimalLacks(j, ' ');
    assert Tagged(i, p) == di + " " + ("# " + p);
    assert Tagged(j, q) == dj + " " + ("# " + q);
    FindAfterClearPrefix(di, " ", "# " + p);
    FindAfterClearPrefix(dj, " ", "# " + q);
    DecimalStringInjective(i, j);
    assert ("# " + p)[2..] == p && ("# " + q)[2..] == q;
  }

  /** The dictionary the loop of `get_content_for_indices` has built after
      the given indices. */
  function ContentMap(files: seq<File>, indices: seq<int>): map<string, string>
    decreases |indices|
  {
    if indices == [] then map[]
    else
      var m := ContentMap(files, indices[..|indices| - 1]);
      var i := indices[|indices| - 1];
      if 0 <= i < |files| then m[Tagged(i, files[i].path) := files[i].content] else m
  }

  /** Every in-range index has its entry, holding that file's content, and
      there is no other entry: out-of-range indices are dropped silently. */
  lemma {:induction false} ContentMapSpec(files: seq<File>, indices: seq<int>)
    ensures forall i :: i in indices && 0 <= i < |files| ==>
              Tagged(i, files[i].path) in ContentMap(files, indices) &&
              ContentMap(files, indices)[Tagged(i, files[i].path)] == files[i].content
    ensures forall k :: k in ContentMap(files, indices) ==>
              exists i :: i in indices && 0 <= i < |files| && k == Tagged(i, files[i].path)
    decreases |indices|
  {
    if indices != [] {
      var prefix := indices[..|indices| - 1];
      var last := indices[|indices| - 1];
      assert indices == prefix + [last];
      ContentMapSpec(files, prefix);
      var m := ContentMap(files, prefix);
      if 0 <= last < |files| {
        forall i | i in prefix && 0 <= i < |files|
          ensures ContentMap(files, indices)[Tagged(i, files[i].path)] == files[i].content
        {
          if Tagged(i, files[i].path) == Tagged(last, files[last].path) {
            KeyInjective(i, files[i].path, last, files[last].path);
          }
        }
      }
    }
  }

  /** `get_content_for_indices(files_data, indices)`. */
  method GetContentForIndices(files: seq<File>, indices: seq<int>) returns (m: map<string, string>)
    ensures m == ContentMap(files, indices)
    ensures forall i :: i in indices && 0 <= i < |files| ==>
              Tagged(i, files[i].path) in m && m[Tagged(i, files[i].path)] == files[i].content
    ensures forall k :: k in m ==> exists i :: i in indices && 0 <= i < |files| && k == Tagged(i, files[i].path)
  {
    m := map[];
    for n := 0 to |indices|
      invariant m == ContentMap(files, indices[..n])
    {
      assert indices[..n + 1][..n] == indices[..n];
      var i := indices[n];
      if 0 <= i < |files| {
        m := m[Tagged(i, files[i].path) := files[i].content];
      }
    }
    assert indices[..|indices|] == indices;
    ContentMapSpec(files, indices);
  }
}
