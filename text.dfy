/** The Python `str` operations nodes.py relies on, with Python's semantics:
    `strip`, `rstrip`, `split`, `join`, `replace`, `startswith`, `endswith`,
    ASCII `isalnum` and `lower`. */
module Text {
  import opened Outcome

  /** The characters `str.strip()` removes when given no argument (`str.isspace()`). */
  predicate IsSpace(c: char) {
    c == ' ' || ('\t' <= c <= '\r') || ('\U{1C}' <= c <= '\U{1F}') ||
    c == '\U{85}' || c == '\U{A0}' || c == '\U{1680}' || ('\U{2000}' <= c <= '\U{200A}') ||
    c == '\U{2028}' || c == '\U{2029}' || c == '\U{202F}' || c == '\U{205F}' || c == '\U{3000}'
  }

  /** `s.lstrip()`: drops the leading whitespace and nothing else. */
  function LStrip(s: string): (r: string)
    ensures |r| <= |s| && r == s[|s| - |r|..]
    ensures forall i :: 0 <= i < |s| - |r| ==> IsSpace(s[i])
    ensures r == [] || !IsSpace(r[0])
  {
    if |s| > 0 && IsSpace(s[0]) then
      var r := LStrip(s[1..]);
      assert s[1..][|s| - 1 - |r|..] == s[|s| - |r|..];
      assert forall i :: 0 < i < |s| - |r| ==> s[i] == s[1..][i - 1];
      r
    else s
  }

  /** `s.rstrip()`: drops the trailing whitespace and nothing else. */
  function RStrip(s: string): (r: string)
    ensures |r| <= |s| && r == s[..|r|]
    ensures forall i :: |r| <= i < |s| ==> IsSpace(s[i])
    ensures r == [] || !IsSpace(r[|r| - 1])
  {
    if |s| > 0 && IsSpace(s[|s| - 1]) then RStrip(s[..|s| - 1]) else s
  }

  /** `s.strip()`. */
  function Strip(s: string): (r: string)
    ensures |r| <= |s|
    ensures r == [] || (!IsSpace(r[0]) && !IsSpace(r[|r| - 1]))
  {
    RStrip(LStrip(s))
  }

  /** `Strip(s)` is the piece of `s` between its leading and its trailing whitespace. */
  lemma StripIsInfix(s: string) returns (k: nat)
    ensures k + |Strip(s)| <= |s| && Strip(s) == s[k..k + |Strip(s)|]
    ensures forall i :: 0 <= i < k ==> IsSpace(s[i])
    ensures forall i :: k + |Strip(s)| <= i < |s| ==> IsSpace(s[i])
  {
    var l := LStrip(s);
    k := |s| - |l|;
    var r := RStrip(l);
    assert Strip(s) == r;
    PrefixOfSuffix(s, l, r, k);
  }

  /** A prefix `r` of the suffix `l` of `s` that starts at `k`, where `l`
      ends in whitespace after `r`. */
  lemma PrefixOfSuffix(s: string, l: string, r: string, k: nat)
    requires k <= |s| && l == s[k..] && |r| <= |l| && r == l[..|r|]
    requires forall i :: |r| <= i < |l| ==> IsSpace(l[i])
    ensures k + |r| <= |s| && r == s[k..k + |r|]
    ensures forall i :: k + |r| <= i < |s| ==> IsSpace(s[i])
  {
    forall i | k + |r| <= i < |s| ensures IsSpace(s[i]) {
      assert s[i] == l[i - k];
    }
  }

  /** A string that neither begins nor ends with whitespace is its own strip. */
  lemma StripKeeps(s: string)
    requires s == [] || (!IsSpace(s[0]) && !IsSpace(s[|s| - 1]))
    ensures Strip(s) == s
  {
  }

  /** Stripping twice changes nothing more. */
  lemma StripIdempotent(s: string)
    ensures Strip(Strip(s)) == Strip(s)
  {
    StripKeeps(Strip(s));
  }

  /** A leading piece `p` that begins and ends with non-space characters
      survives the stripping of `p + q` untouched. */
  lemma StripKeepsPrefix(p: string, q: string)
    requires |p| > 0 && !IsSpace(p[0]) && !IsSpace(p[|p| - 1])
    ensures StartsWith(Strip(p + q), p)
  {
    var s := p + q;
    assert LStrip(s) == s;
    var r := RStrip(s);
    assert s[|p| - 1] == p[|p| - 1];
    assert !IsSpace(s[|p| - 1]);
    assert r[..|p|] == s[..|p|] == p;
  }

  /** One more whitespace character after a trimmed string is trimmed away again. */
  lemma StripTrailingSpace(x: string, c: char)
    requires |x| > 0 && !IsSpace(x[0]) && !IsSpace(x[|x| - 1]) && IsSpace(c)
    ensures Strip(x + [c]) == x
  {
    var s := x + [c];
    assert LStrip(s) == s;
    assert s[..|s| - 1] == x;
  }

  /** `s.rstrip(chars)` for the one-character set `{c}`. */
  function RStripChar(s: string, c: char): (r: string)
    ensures |r| <= |s| && r == s[..|r|]
    ensures forall i :: |r| <= i < |s| ==> s[i] == c
    ensures r == [] || r[|r| - 1] != c
  {
    if |s| > 0 && s[|s| - 1] == c then RStripChar(s[..|s| - 1], c) else s
  }

  /** Trimming a run of `c` from the end of `x + run` gives back `x` when `x`
      does not end in `c`. */
  lemma RStripCharRun(x: string, run: string, c: char, s: string)
    requires x == [] || x[|x| - 1] != c
    requires forall i :: 0 <= i < |run| ==> run[i] == c
    requires s == x + run
    ensures RStripChar(s, c) == x
  {
    var r := RStripChar(s, c);
    if x != [] {
      assert s[|x| - 1] == x[|x| - 1];
    }
    assert forall i :: |x| <= i < |s| ==> s[i] == run[i - |x|];
    if r != [] {
      assert r[|r| - 1] == s[|r| - 1];
    }
    assert s[..|x|] == x;
  }

  predicate StartsWith(s: string, p: string) {
    |p| <= |s| && s[..|p|] == p
  }

  predicate EndsWith(s: string, p: string) {
    |p| <= |s| && s[|s| - |p|..] == p
  }

  /** `p` occurs in `s` at position `j`. */
  predicate OccursAt(s: string, p: string, j: int) {
    0 <= j && j + |p| <= |s| && s[j..j + |p|] == p
  }

  /** `p in s` for a non-empty `p`. */
  predicate Contains(s: string, p: string) {
    exists j :: 0 <= j <= |s| - |p| && OccursAt(s, p, j)
  }

  /** The first occurrence of `p` in `s` at or after `from`, as `str.find` scans. */
  function FindFrom(s: string, p: string, from: nat): (r: Option<nat>)
    ensures r.Some? ==> from <= r.value && OccursAt(s, p, r.value) &&
                        forall j :: from <= j < r.value ==> !OccursAt(s, p, j)
    ensures r.None? ==> forall j :: from <= j ==> !OccursAt(s, p, j)
    decreases |s| - from
  {
    if from + |p| > |s| then None
    else if s[from..from + |p|] == p then Some(from)
    else FindFrom(s, p, from + 1)
  }

  function Find(s: string, p: string): (r: Option<nat>)
    ensures r.Some? ==> OccursAt(s, p, r.value) && forall j :: 0 <= j < r.value ==> !OccursAt(s, p, j)
    ensures r.None? <==> !Contains(s, p)
  {
    FindFrom(s, p, 0)
  }

  /** `s.split(sep)[0]`: everything before the first `sep`, or all of `s`. */
  function Before(s: string, sep: string): (r: string)
    requires |sep| > 0
    ensures StartsWith(s, r)
    ensures !Contains(r, sep)
    ensures !Contains(s, sep) ==> r == s
    ensures Contains(s, sep) ==> Find(s, sep) == Some(|r|)
  {
    match Find(s, sep)
    case None => s
    case Some(i) =>
      assert forall j :: OccursAt(s[..i], sep, j) ==> OccursAt(s, sep, j) && j < i by {
        forall j | OccursAt(s[..i], sep, j) ensures OccursAt(s, sep, j) && j < i {
          assert s[..i][j..j + |sep|] == s[j..j + |sep|];
        }
      }
      s[..i]
  }

  /** The contract of `Before` pins its result: a prefix that either is the
      whole text of a text without `sep`, or ends where the first `sep` begins. */
  lemma BeforeUnique(s: string, sep: string, r: string)
    requires |sep| > 0 && StartsWith(s, r)
    requires !Contains(s, sep) ==> r == s
    requires Contains(s, sep) ==> Find(s, sep) == Some(|r|)
    ensures r == Before(s, sep)
  {
    var b := Before(s, sep);
    assert |r| == |b|;
    assert r == s[..|r|] && b == s[..|b|];
  }

  /** What follows the first `sep` in `s`, if `sep` occurs: the second half of
      `s.partition(sep)`. */
  function After(s: string, sep: string): (r: Option<string>)
    requires |sep| > 0
    ensures r.Some? <==> Contains(s, sep)
    ensures r.Some? ==> s == Before(s, sep) + sep + r.value
  {
    match Find(s, sep)
    case None => None
    case Some(i) => Some(s[i + |sep|..])
  }

  /** `s.split(sep)` for a non-empty separator. */
  function Split(s: string, sep: string): (parts: seq<string>)
    requires |sep| > 0
    ensures |parts| >= 1
    ensures parts[0] == Before(s, sep)
    decreases |s|
  {
    match After(s, sep)
    case None => [s]
    case Some(rest) => [Before(s, sep)] + Split(rest, sep)
  }

  /** `sep.join(parts)`. */
  function Join(sep: string, parts: seq<string>): string {
    if |parts| == 0 then ""
    else if |parts| == 1 then parts[0]
    else parts[0] + sep + Join(sep, parts[1..])
  }

  /** `s.replace(target, replacement)`: every non-overlapping occurrence, scanning left to right. */
  function Replace(s: string, target: string, replacement: string): string
    requires |target| > 0
  {
    Join(replacement, Split(s, target))
  }

  /** Joining the pieces of a split with the same separator gives back the string. */
  lemma {:induction false} JoinSplit(s: string, sep: string)
    requires |sep| > 0
    ensures Join(sep, Split(s, sep)) == s
    decreases |s|
  {
    match After(s, sep)
    case None =>
    case Some(rest) =>
      JoinSplit(rest, sep);
  }

  /** A split at an occurring separator: the piece before it, then the split of the rest. */
  lemma SplitCons(s: string, sep: string)
    requires |sep| > 0 && Contains(s, sep)
    ensures Split(s, sep) == [Before(s, sep)] + Split(After(s, sep).value, sep)
  {
  }

  /** A split at an absent separator is the whole string. */
  lemma SplitSingle(s: string, sep: string)
    requires |sep| > 0 && !Contains(s, sep)
    ensures Split(s, sep) == [s]
  {
  }

  /** Splitting a join gives back its parts when no part holds the separator
      and the separator cannot overlap itself. */
  lemma {:induction false} SplitJoin(sep: string, parts: seq<string>)
    requires LastCharUnique(sep) && |parts| > 0
    requires forall k :: 0 <= k < |parts| ==> !Contains(parts[k], sep)
    ensures Split(Join(sep, parts), sep) == parts
    decreases |parts|
  {
    if |parts| == 1 {
      SplitSingle(parts[0], sep);
    } else {
      var tail := parts[1..];
      assert forall k :: 0 <= k < |tail| ==> !Contains(tail[k], sep) by {
        forall k | 0 <= k < |tail| ensures !Contains(tail[k], sep) {
          assert tail[k] == parts[k + 1];
        }
      }
      var first, rest := parts[0], Join(sep, tail);
      assert parts == [first] + tail;
      JoinCons(sep, first, tail);
      var whole := first + sep + rest;
      FindAfterClearPrefix(first, sep, rest);
      SplitCons(whole, sep);
      SplitJoin(sep, tail);
    }
  }

  /** A character found neither in the parts nor in the separator is not in their join. */
  lemma {:induction false} CharNotInJoin(c: char, sep: string, parts: seq<string>)
    requires c !in sep && forall k :: 0 <= k < |parts| ==> c !in parts[k]
    ensures c !in Join(sep, parts)
    decreases |parts|
  {
    if |parts| > 1 {
      var tail := parts[1..];
      assert forall k :: 0 <= k < |tail| ==> c !in tail[k] by {
        forall k | 0 <= k < |tail| ensures c !in tail[k] {
          assert tail[k] == parts[k + 1];
        }
      }
      CharNotInJoin(c, sep, tail);
    }
  }

  /** Joining a first part in front of at least one more. */
  lemma JoinCons(sep: string, first: string, rest: seq<string>)
    requires |rest| > 0
    ensures Join(sep, [first] + rest) == first + sep + Join(sep, rest)
  {
    assert ([first] + rest)[1..] == rest;
  }

  /** The first `c` of `a + [c] + b` lies within `a + [c]`. */
  lemma FirstOfJoined(a: string, c: char, b: string) returns (rest: string)
    ensures Contains(a + [c] + b, [c])
    ensures |Before(a + [c] + b, [c])| <= |a|
    ensures rest == After(a + [c] + b, [c]).value
    ensures |Before(a + [c] + b, [c])| == |a| ==> rest == b
    ensures |Before(a + [c] + b, [c])| < |a| ==> rest == a[|Before(a + [c] + b, [c])| + 1..] + [c] + b
  {
    var s := a + [c] + b;
    assert OccursAt(s, [c], |a|);
    rest := After(s, [c]).value;
    var pre := Before(s, [c]);
    assert s == pre + [c] + rest;
  }

  /** `parts[-1]`. */
  function Last(parts: seq<string>): string
    requires |parts| > 0
  {
    parts[|parts| - 1]
  }

  lemma LastCons(x: string, parts: seq<string>)
    requires |parts| > 0
    ensures Last([x] + parts) == Last(parts)
  {
  }

  /** `s.split(c)[-1]`: what follows the last separator. */
  lemma {:induction false} SplitLastPiece(a: string, c: char, b: string)
    requires c !in b
    ensures Last(Split(a + [c] + b, [c])) == b
    decreases |a|
  {
    var s := a + [c] + b;
    var rest := FirstOfJoined(a, c, b);
    SplitCons(s, [c]);
    var n := |Before(s, [c])|;
    LastCons(Before(s, [c]), Split(rest, [c]));
    if n == |a| {
      ContainsChar(b, c);
      SplitSingle(b, [c]);
    } else {
      SplitLastPiece(a[n + 1..], c, b);
    }
  }

  /** The number of times `c` occurs in `s`. */
  function CountChar(s: string, c: char): nat {
    if |s| == 0 then 0 else (if s[0] == c then 1 else 0) + CountChar(s[1..], c)
  }

  lemma {:induction false} CountCharAppend(a: string, b: string, c: char)
    ensures CountChar(a + b, c) == CountChar(a, c) + CountChar(b, c)
    decreases |a|
  {
    if |a| == 0 {
      assert a + b == b;
    } else {
      assert (a + b)[1..] == a[1..] + b;
      CountCharAppend(a[1..], b, c);
    }
  }

  lemma {:induction false} CountCharAbsent(s: string, c: char)
    requires c !in s
    ensures CountChar(s, c) == 0
    decreases |s|
  {
    if |s| > 0 {
      CountCharAbsent(s[1..], c);
    }
  }

  /** Splitting at a one-character separator gives one more piece than there
      are separators: `len(s.split("\n"))` counts lines, an empty string included. */
  lemma {:induction false} SplitCount(s: string, c: char)
    ensures |Split(s, [c])| == CountChar(s, c) + 1
    decreases |s|
  {
    var b := Before(s, [c]);
    assert c !in b by {
      if c in b {
        var j :| 0 <= j < |b| && b[j] == c;
        assert OccursAt(b, [c], j);
      }
    }
    CountCharAbsent(b, c);
    match After(s, [c])
    case None =>
      assert b == s;
    case Some(rest) =>
      SplitCount(rest, c);
      CountCharAppend(b, [c], c);
      CountCharAppend(b + [c], rest, c);
  }

  /** The number of separators in a join is the separators between the parts
      plus the ones inside them. */
  lemma {:induction false} CountJoin(parts: seq<string>, c: char)
    requires |parts| >= 1
    ensures CountChar(Join([c], parts), c) == |parts| - 1 + SumCount(parts, c)
    decreases |parts|
  {
    if |parts| > 1 {
      CountJoin(parts[1..], c);
      CountCharAppend(parts[0], [c], c);
      CountCharAppend(parts[0] + [c], Join([c], parts[1..]), c);
    }
  }

  /** The total number of `c` in all the parts. */
  function SumCount(parts: seq<string>, c: char): nat {
    if |parts| == 0 then 0 else CountChar(parts[0], c) + SumCount(parts[1..], c)
  }

  lemma {:induction false} SumCountZero(parts: seq<string>, c: char)
    requires forall k :: 0 <= k < |parts| ==> c !in parts[k]
    ensures SumCount(parts, c) == 0
    decreases |parts|
  {
    if |parts| > 0 {
      CountCharAbsent(parts[0], c);
      SumCountZero(parts[1..], c);
    }
  }

  /** For a one-character pattern, `Contains` is plain membership. */
  lemma ContainsChar(s: string, c: char)
    ensures Contains(s, [c]) <==> c in s
  {
    if c in s {
      var j :| 0 <= j < |s| && s[j] == c;
      assert OccursAt(s, [c], j);
    }
    if Contains(s, [c]) {
      var j :| 0 <= j <= |s| - 1 && OccursAt(s, [c], j);
      assert s[j] == s[j..j + 1][0];
    }
  }

  /** A piece of a string has no occurrence of `p` the whole string lacks. */
  lemma InfixLacks(s: string, k: nat, len: nat, p: string)
    requires k + len <= |s| && !Contains(s, p)
    ensures !Contains(s[k..k + len], p)
  {
    var t := s[k..k + len];
    forall j | 0 <= j <= |t| - |p| ensures !OccursAt(t, p, j) {
      assert |t| == len;
      var a, b := t[j..j + |p|], s[k + j..k + j + |p|];
      forall i | 0 <= i < |p| ensures a[i] == b[i] {
        assert t[j + i] == s[k + j + i];
      }
      assert a == b;
      assert !OccursAt(s, p, k + j);
    }
  }

  /** `p` whose last character occurs nowhere else in it cannot overlap itself. */
  predicate LastCharUnique(p: string) {
    |p| > 0 && forall i :: 0 <= i < |p| - 1 ==> p[i] != p[|p| - 1]
  }

  /** When `pre` holds no `p` and `p` cannot overlap itself, the first `p` in
      `pre + p + post` is the one right after `pre`. */
  lemma FindAfterClearPrefix(pre: string, p: string, post: string)
    requires !Contains(pre, p) && LastCharUnique(p)
    ensures Find(pre + p + post, p) == Some(|pre|)
    ensures Before(pre + p + post, p) == pre
    ensures After(pre + p + post, p) == Some(post)
  {
    var s := pre + p + post;
    assert OccursAt(s, p, |pre|) by {
      assert s[|pre|..|pre| + |p|] == p;
    }
    forall j | 0 <= j < |pre| ensures !OccursAt(s, p, j) {
      if j + |p| <= |pre| {
        assert pre[j..j + |p|] == s[j..j + |p|];
        assert !OccursAt(pre, p, j);
      } else {
        // the last character of an occurrence at j would be p's character
        // at `|p| - 1 - (|pre| - j)`, which differs from p's last one
        var k := |pre| - j;
        assert s[j + |p| - 1] == p[|p| - 1 - k];
      }
    }
    assert s[..|pre|] == pre;
    assert s[|pre| + |p|..] == post;
  }

  /** Trimming cannot create an occurrence. */
  lemma StripLacks(s: string, p: string)
    requires !Contains(s, p)
    ensures !Contains(Strip(s), p)
  {
    var k := StripIsInfix(s);
    InfixLacks(s, k, |Strip(s)|, p);
  }

  /** In `head + tail` the first `sep` begins where `tail` does, and `tail` is
      empty exactly when there is no `sep` at all: `head` is `split(sep)[0]`. */
  predicate FirstCut(head: string, tail: string, sep: string) {
    Find(head + tail, sep) == if tail == [] then None else Some(|head|)
  }

  /** A first cut is the one `split(sep)[0]` makes. */
  lemma FirstCutIsBefore(head: string, tail: string, sep: string)
    requires |sep| > 0 && FirstCut(head, tail, sep)
    ensures Before(head + tail, sep) == head
  {
    StartsWithConcat(head, tail);
    if tail == [] {
      assert head + tail == head;
    }
    BeforeUnique(head + tail, sep, head);
  }

  /** `s` is what `Before` keeps followed by a tail that is empty or begins with `sep`. */
  lemma CutAtFirst(s: string, sep: string) returns (tail: string)
    requires |sep| > 0
    ensures s == Before(s, sep) + tail
    ensures tail == [] || StartsWith(tail, sep)
    ensures Find(s, sep) == if tail == [] then None else Some(|Before(s, sep)|)
  {
    match After(s, sep)
    case None =>
      tail := [];
    case Some(a) =>
      tail := sep + a;
      assert s == Before(s, sep) + tail;
  }

  lemma ConcatAssoc(x: string, y: string, z: string)
    ensures (x + y) + z == x + (y + z)
  {
  }

  lemma StartsWithAppend(x: string, y: string, p: string)
    requires StartsWith(x, p)
    ensures StartsWith(x + y, p)
  {
    assert (x + y)[..|p|] == x[..|p|];
  }

  lemma StartsWithConcat(x: string, y: string)
    ensures StartsWith(x + y, x)
  {
    assert (x + y)[..|x|] == x;
  }

  lemma EndsWithAppend(x: string, t: string)
    ensures EndsWith(x + t, t)
  {
    assert (x + t)[|x|..] == t;
  }

  lemma StartsWithTrans(t: string, q: string, p: string)
    requires StartsWith(t, q) && StartsWith(q, p)
    ensures StartsWith(t, p)
  {
    assert t[..|p|] == t[..|q|][..|p|];
  }

  /** Cutting at the first `sep` and then trimming a run of `c` from the end. */
  lemma CutThenTrim(s: string, sep: string, c: char) returns (run: string, tail: string)
    requires |sep| > 0
    ensures s == RStripChar(Before(s, sep), c) + run + tail
    ensures forall i :: 0 <= i < |run| ==> run[i] == c
    ensures tail == [] || StartsWith(tail, sep)
    ensures Find(s, sep) == if tail == [] then None else Some(|RStripChar(Before(s, sep), c)| + |run|)
  {
    var b := Before(s, sep);
    var body := RStripChar(b, c);
    tail := CutAtFirst(s, sep);
    run := b[|body|..];
    assert b == body + run;
    assert s == (body + run) + tail;
  }

  /** An occurrence of `p` in `a + b` must lie inside `a` when `b` lacks the
      last character of `p`. */
  lemma ContainsAcross(a: string, b: string, p: string)
    requires |p| > 0 && !Contains(a, p) && p[|p| - 1] !in b
    ensures !Contains(a + b, p)
  {
    var s := a + b;
    forall j | 0 <= j <= |s| - |p| ensures !OccursAt(s, p, j) {
      if OccursAt(s, p, j) {
        assert s[j + |p| - 1] == p[|p| - 1];
        assert j + |p| <= |a|;
        assert a[j..j + |p|] == s[j..j + |p|];
        assert OccursAt(a, p, j);
      }
    }
  }

  /** ASCII `str.isalnum()`. */
  predicate IsAlnum(c: char) {
    ('0' <= c <= '9') || ('a' <= c <= 'z') || ('A' <= c <= 'Z')
  }

  /** ASCII `str.lower()` of one character. */
  function ToLower(c: char): char {
    if 'A' <= c <= 'Z' then (c as int - 'A' as int + 'a' as int) as char else c
  }

  /** ASCII `s.lower()`. */
  function Lower(s: string): (r: string)
    ensures |r| == |s| && forall i :: 0 <= i < |s| ==> r[i] == ToLower(s[i])
  {
    seq(|s|, i requires 0 <= i < |s| => ToLower(s[i]))
  }
}
