/** `sorted(set(xs))` on integers: the ascending listing of the distinct values of `xs`. */
module SortedSets {

  predicate StrictlyIncreasing(s: seq<int>) {
    forall i, j :: 0 <= i < j < |s| ==> s[i] < s[j]
  }

  function Elements(s: seq<int>): set<int> {
    set x | x in s
  }

  /** Adds `x` to an ascending listing unless it is there already. */
  function Insert(x: int, s: seq<int>): (r: seq<int>)
    requires StrictlyIncreasing(s)
    ensures StrictlyIncreasing(r) && Elements(r) == Elements(s) + {x}
    ensures r[0] == x || (s != [] && r[0] == s[0])
    decreases |s|
  {
    if s == [] then [x]
    else if x < s[0] then
      ElementsCons(x, s);
      LeastBelow(s, x);
      ConsAscending(x, s);
      [x] + s
    else if x == s[0] then
      assert s[0] in Elements(s);
      s
    else
      TailAscending(s);
      var tail := Insert(x, s[1..]);
      ElementsCons(s[0], s[1..]);
      ElementsCons(s[0], tail);
      AboveHead(s);
      ConsAscending(s[0], tail);
      assert s == [s[0]] + s[1..];
      [s[0]] + tail
  }

  lemma ElementsCons(h: int, t: seq<int>)
    ensures Elements([h] + t) == {h} + Elements(t)
  {
    assert forall j :: 0 <= j < |t| ==> ([h] + t)[j + 1] == t[j];
  }

  /** A value below the head of an ascending listing is below all of it. */
  lemma LeastBelow(s: seq<int>, x: int)
    requires StrictlyIncreasing(s) && s != [] && x < s[0]
    ensures forall y :: y in Elements(s) ==> x < y
  {
    forall y | y in Elements(s) ensures x < y {
      HeadIsLeast(s, y);
    }
  }

  /** The head of an ascending listing is below every value of its tail. */
  lemma AboveHead(s: seq<int>)
    requires StrictlyIncreasing(s) && s != []
    ensures forall y :: y in Elements(s[1..]) ==> s[0] < y
  {
    forall y | y in Elements(s[1..]) ensures s[0] < y {
      var j :| 0 <= j < |s[1..]| && s[1..][j] == y;
      assert s[j + 1] == y;
    }
  }

  lemma ConsAscending(h: int, t: seq<int>)
    requires StrictlyIncreasing(t) && forall y :: y in Elements(t) ==> h < y
    ensures StrictlyIncreasing([h] + t)
  {
    var r := [h] + t;
    forall i, j | 0 <= i < j < |r| ensures r[i] < r[j] {
      assert r[j] == t[j - 1] && r[j] in Elements(t);
      if i > 0 {
        assert r[i] == t[i - 1];
      }
    }
  }

  /** `sorted(set(xs))`. */
  function SortedDistinct(xs: seq<int>): (r: seq<int>)
    ensures StrictlyIncreasing(r) && Elements(r) == Elements(xs)
    decreases |xs|
  {
    if xs == [] then []
    else
      assert Elements(xs) == Elements(xs[..|xs| - 1]) + {xs[|xs| - 1]} by {
        assert xs == xs[..|xs| - 1] + [xs[|xs| - 1]];
      }
      Insert(xs[|xs| - 1], SortedDistinct(xs[..|xs| - 1]))
  }

  /** The first element of an ascending listing is the least of its values. */
  lemma HeadIsLeast(s: seq<int>, x: int)
    requires StrictlyIncreasing(s) && x in s
    ensures s[0] <= x
  {
    var j :| 0 <= j < |s| && s[j] == x;
  }

  /** Dropping the first element of an ascending listing drops its least value. */
  lemma TailElements(s: seq<int>)
    requires StrictlyIncreasing(s) && s != []
    ensures Elements(s[1..]) == Elements(s) - {s[0]}
  {
    forall x | x in Elements(s) - {s[0]} ensures x in Elements(s[1..]) {
      var j :| 0 <= j < |s| && s[j] == x;
      assert s[1..][j - 1] == x;
    }
  }

  /** Two ascending listings of the same values are the same listing. */
  lemma {:induction false} AscendingUnique(a: seq<int>, b: seq<int>)
    requires StrictlyIncreasing(a) && StrictlyIncreasing(b) && Elements(a) == Elements(b)
    ensures a == b
    decreases |a|
  {
    if b != [] {
      assert b[0] in Elements(b);
    }
    if a != [] {
      assert a[0] in Elements(a);
      HeadIsLeast(a, b[0]);
      HeadIsLeast(b, a[0]);
      TailElements(a);
      TailElements(b);
      TailAscending(a);
      TailAscending(b);
      AscendingUnique(a[1..], b[1..]);
      assert a == [a[0]] + a[1..] && b == [b[0]] + b[1..];
    }
  }

  lemma TailAscending(s: seq<int>)
    requires StrictlyIncreasing(s) && s != []
    ensures StrictlyIncreasing(s[1..])
  {
    forall i, j | 0 <= i < j < |s| - 1 ensures s[1..][i] < s[1..][j] {
      assert s[1..][i] == s[i + 1] && s[1..][j] == s[j + 1];
    }
  }

  /** The property that pins `sorted(set(xs))` down: any ascending listing of
      the distinct values of `xs` is it. */
  lemma SortedDistinctUnique(xs: seq<int>, s: seq<int>)
    requires StrictlyIncreasing(s) && Elements(s) == Elements(xs)
    ensures s == SortedDistinct(xs)
  {
    AscendingUnique(s, SortedDistinct(xs));
  }

  /** An ascending listing names each value once. */
  lemma {:induction false} AscendingLength(s: seq<int>)
    requires StrictlyIncreasing(s)
    ensures |Elements(s)| == |s|
    decreases |s|
  {
    if s != [] {
      TailElements(s);
      AscendingLength(s[1..]);
      assert s[0] in Elements(s);
    }
  }
}
