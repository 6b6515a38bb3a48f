/** Ordering facts about integer sequences, and the numeric sort used for
    lists of LED indices (`Array.prototype.sort` with `(a, b) => a - b`). */
module Seqs {

  predicate Sorted(s: seq<int>) {
    forall i, j :: 0 <= i < j < |s| ==> s[i] <= s[j]
  }

  predicate StrictlyIncreasing(s: seq<int>) {
    forall i, j :: 0 <= i < j < |s| ==> s[i] < s[j]
  }

  predicate Distinct(s: seq<int>) {
    forall i, j :: 0 <= i < j < |s| ==> s[i] != s[j]
  }

  /** Inserts `x` into the sorted sequence `s` before the first element not
      below it. */
  function Insert(x: int, s: seq<int>): (r: seq<int>)
    requires Sorted(s)
    ensures Sorted(r)
    ensures multiset(r) == multiset(s) + multiset{x}
    ensures StrictlyIncreasing(s) && x !in s ==> StrictlyIncreasing(r)
  {
    if |s| == 0 || x <= s[0] then [x] + s
    else
      var rest := Insert(x, s[1..]);
      InsertHead(x, s, rest);
      [s[0]] + rest
  }

  /** The step of `Insert` past the head of `s`: `rest`, the insertion into
      the tail, may follow the head. */
  lemma InsertHead(x: int, s: seq<int>, rest: seq<int>)
    requires Sorted(s) && |s| > 0 && x > s[0] && Sorted(rest)
    requires multiset(rest) == multiset(s[1..]) + multiset{x}
    requires StrictlyIncreasing(s[1..]) && x !in s[1..] ==> StrictlyIncreasing(rest)
    ensures Sorted([s[0]] + rest)
    ensures multiset([s[0]] + rest) == multiset(s) + multiset{x}
    ensures StrictlyIncreasing(s) && x !in s ==> StrictlyIncreasing([s[0]] + rest)
  {
    assert s == [s[0]] + s[1..];
    HeadBelowRest(x, s, rest);
    ConsSorted(s[0], rest);
    if StrictlyIncreasing(s) && x !in s {
      assert StrictlyIncreasing(s[1..]) && x !in s[1..];
      ConsStrictlyIncreasing(s[0], rest);
    }
  }

  /** Every element of `rest` is at least (for a strictly increasing `s`,
      above) the head of `s`. */
  lemma HeadBelowRest(x: int, s: seq<int>, rest: seq<int>)
    requires Sorted(s) && |s| > 0 && x > s[0]
    requires multiset(rest) == multiset(s[1..]) + multiset{x}
    ensures forall k :: 0 <= k < |rest| ==> s[0] <= rest[k]
    ensures StrictlyIncreasing(s) ==> forall k :: 0 <= k < |rest| ==> s[0] < rest[k]
  {
    forall k | 0 <= k < |rest|
      ensures s[0] <= rest[k]
      ensures StrictlyIncreasing(s) ==> s[0] < rest[k]
    {
      assert rest[k] in multiset(rest);
      if rest[k] != x {
        assert rest[k] in multiset(s[1..]);
        var m :| 0 <= m < |s[1..]| && s[1..][m] == rest[k];
        assert s[m + 1] == rest[k];
      }
    }
  }

  lemma ConsSorted(h: int, rest: seq<int>)
    requires Sorted(rest) && forall k :: 0 <= k < |rest| ==> h <= rest[k]
    ensures Sorted([h] + rest)
  {
    var r := [h] + rest;
    forall i, j | 0 <= i < j < |r|
      ensures r[i] <= r[j]
    {
      assert r[j] == rest[j - 1];
      if i > 0 {
        assert r[i] == rest[i - 1];
      }
    }
  }

  lemma ConsStrictlyIncreasing(h: int, rest: seq<int>)
    requires StrictlyIncreasing(rest) && forall k :: 0 <= k < |rest| ==> h < rest[k]
    ensures StrictlyIncreasing([h] + rest)
  {
    var r := [h] + rest;
    forall i, j | 0 <= i < j < |r|
      ensures r[i] < r[j]
    {
      assert r[j] == rest[j - 1];
      if i > 0 {
        assert r[i] == rest[i - 1];
      }
    }
  }

  /** A numeric sort. A sorted permutation is unique, so this insertion sort
      returns what any correct sort of the same numbers returns. */
  function Sort(s: seq<int>): (r: seq<int>)
    ensures Sorted(r)
    ensures multiset(r) == multiset(s)
    ensures Distinct(s) ==> StrictlyIncreasing(r)
  {
    if |s| == 0 then []
    else
      var rest := Sort(s[1..]);
      assert s == [s[0]] + s[1..];
      HeadNotInTail(s, rest);
      Insert(s[0], rest)
  }

  /** The head of a duplicate-free sequence is missing from any permutation
      of its tail. */
  lemma HeadNotInTail(s: seq<int>, rest: seq<int>)
    requires |s| > 0 && multiset(rest) == multiset(s[1..])
    ensures Distinct(s) ==> Distinct(s[1..]) && s[0] !in rest
  {
    if Distinct(s) {
      forall k | 0 <= k < |s[1..]|
        ensures s[1..][k] != s[0]
      {
        assert s[1..][k] == s[k + 1];
      }
      assert s[0] !in multiset(s[1..]);
    }
  }

  /** A strictly increasing sequence is determined by its elements. */
  lemma {:induction false} StrictlyIncreasingUnique(a: seq<int>, b: seq<int>)
    requires StrictlyIncreasing(a) && StrictlyIncreasing(b)
    requires forall v :: v in a <==> v in b
    ensures a == b
  {
    if |a| > 0 {
      assert a[0] in a;
      assert |b| > 0;
    }
    if |b| > 0 {
      assert b[0] in b;
      assert |a| > 0;
    }
    if |a| > 0 {
      assert a[0] in a && b[0] in b;
      assert a[0] in b && b[0] in a;
      assert a[0] == b[0];
      forall v
        ensures v in a[1..] <==> v in b[1..]
      {
        assert v in a[1..] <==> v in a && v != a[0];
        assert v in b[1..] <==> v in b && v != b[0];
      }
      StrictlyIncreasingUnique(a[1..], b[1..]);
      assert a == [a[0]] + a[1..];
      assert b == [b[0]] + b[1..];
    }
  }

  /** Removing the element at `k`: one shorter, the elements before `k` in
      place and those after it one index lower. */
  lemma RemoveAt<T>(s: seq<T>, k: int, rest: seq<T>)
    requires 0 <= k < |s| && rest == s[..k] + s[k + 1..]
    ensures |rest| == |s| - 1
    ensures forall i :: 0 <= i < k ==> rest[i] == s[i]
    ensures forall i :: k <= i < |rest| ==> rest[i] == s[i + 1]
  {
  }

  /** Extending a prefix by one element. */
  lemma PrefixStep<T>(s: seq<T>, i: int)
    requires 0 <= i < |s|
    ensures s[..i + 1] == s[..i] + [s[i]]
  {
  }
}
