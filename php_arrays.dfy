/**
  The PHP array built-ins the feed check depends on, on lists of integer ids:
  `array_unique` and `array_diff`. PHP keeps the original keys in both; the
  model keeps the values in their order, which is all `count()` and the
  comparison look at.
 */
module PhpArrays {

  /** No value occurs twice. */
  predicate NoDuplicates(s: seq<int>)
  {
    forall i, j :: 0 <= i < j < |s| ==> s[i] != s[j]
  }

  /** `a` is `b` with some elements left out and the rest in their order. */
  predicate IsSubsequence(a: seq<int>, b: seq<int>)
    decreases |b|
  {
    a == [] ||
    (b != [] && ((a[0] == b[0] && IsSubsequence(a[1..], b[1..])) || IsSubsequence(a, b[1..])))
  }

  /** The position of the first occurrence of `x` in `s`. */
  function FirstIndex(s: seq<int>, x: int): (k: nat)
    requires x in s
    ensures k < |s| && s[k] == x && x !in s[..k]
  {
    if s[0] == x then 0
    else
      var k := 1 + FirstIndex(s[1..], x);
      assert s[..k] == [s[0]] + s[1..][..k - 1];
      k
  }

  /** `array_unique`: the first occurrence of every value, in the order of
      those first occurrences. */
  function ArrayUnique(s: seq<int>): (r: seq<int>)
    ensures |r| <= |s|
    decreases |s|
  {
    if s == [] then []
    else
      var r := ArrayUnique(s[..|s| - 1]);
      if s[|s| - 1] in r then r else r + [s[|s| - 1]]
  }

  /** `array_unique` leaves no repeated value and holds exactly the values of its input. */
  lemma {:induction false} ArrayUniqueSpec(s: seq<int>)
    ensures NoDuplicates(ArrayUnique(s))
    ensures forall x :: x in ArrayUnique(s) <==> x in s
    decreases |s|
  {
    if s != [] {
      var front := s[..|s| - 1];
      var last := s[|s| - 1];
      assert s == front + [last];
      ArrayUniqueSpec(front);
      var r := ArrayUnique(front);
      if last !in r {
        forall i, j | 0 <= i < j < |r + [last]| ensures (r + [last])[i] != (r + [last])[j] {
          if j < |r| {
            assert (r + [last])[i] == r[i] && (r + [last])[j] == r[j];
          } else {
            assert (r + [last])[i] == r[i] && r[i] in r;
          }
        }
      }
    }
  }

  /** `array_diff(a, b)`: the entries of `a` whose value does not occur in
      `b`, in their order and with their repeats. */
  function ArrayDiff(a: seq<int>, b: seq<int>): (r: seq<int>)
    ensures |r| <= |a|
    decreases |a|
  {
    if a == [] then []
    else
      var rest := ArrayDiff(a[1..], b);
      if a[0] in b then rest else [a[0]] + rest
  }

  /** `array_diff(a, b)` keeps exactly the entries of `a` absent from `b`:
      it is a subsequence of `a`, holds a value iff `a` does and `b` does not,
      and holds every such value as often as `a` does. */
  lemma {:induction false} ArrayDiffSpec(a: seq<int>, b: seq<int>)
    ensures IsSubsequence(ArrayDiff(a, b), a)
    ensures forall x :: x in ArrayDiff(a, b) <==> x in a && x !in b
    ensures forall x :: multiset(ArrayDiff(a, b))[x] == if x in b then 0 else multiset(a)[x]
    decreases |a|
  {
    if a != [] {
      assert a == [a[0]] + a[1..];
      var rest := ArrayDiff(a[1..], b);
      ArrayDiffSpec(a[1..], b);
      if a[0] !in b {
        assert ([a[0]] + rest)[1..] == rest;
      }
    }
  }

  /** The first occurrence of a value in a prefix is its first occurrence in the whole. */
  lemma FirstIndexOfPrefix(s: seq<int>, m: nat, x: int)
    requires m <= |s| && x in s[..m]
    ensures FirstIndex(s, x) == FirstIndex(s[..m], x)
  {
    var k := FirstIndex(s, x);
    var k' := FirstIndex(s[..m], x);
    assert s[..m][k'] == s[k'];
  }

  /** `array_unique` lists values in the order of their first occurrences. */
  lemma {:induction false} ArrayUniqueOrder(s: seq<int>)
    ensures forall k :: 0 <= k < |ArrayUnique(s)| ==> ArrayUnique(s)[k] in s
    ensures forall i, j :: 0 <= i < j < |ArrayUnique(s)| ==>
      FirstIndex(s, ArrayUnique(s)[i]) < FirstIndex(s, ArrayUnique(s)[j])
    decreases |s|
  {
    if s != [] {
      var front := s[..|s| - 1];
      var last := s[|s| - 1];
      var r' := ArrayUnique(front);
      var r := ArrayUnique(s);
      ArrayUniqueOrder(front);
      ArrayUniqueSpec(front);
      ArrayUniqueSpec(s);
      assert front == s[..|s| - 1];
      forall y | y in r'
        ensures FirstIndex(s, y) == FirstIndex(front, y) && FirstIndex(s, y) < |front|
      {
        FirstIndexOfPrefix(s, |s| - 1, y);
      }
      if last !in r' {
        assert r == r' + [last];
        assert last !in front;
        assert FirstIndex(s, last) == |front|;
        forall i, j | 0 <= i < j < |r|
          ensures FirstIndex(s, r[i]) < FirstIndex(s, r[j])
        {
          assert r[i] == r'[i] && r'[i] in r';
          assert FirstIndex(s, r[i]) < |front|;
          if j < |r'| {
            assert r[j] == r'[j] && r'[j] in r';
            assert FirstIndex(front, r'[i]) < FirstIndex(front, r'[j]);
          } else {
            assert r[j] == last;
            assert FirstIndex(s, r[j]) == |front|;
          }
        }
      } else {
        forall i, j | 0 <= i < j < |r|
          ensures FirstIndex(s, r[i]) < FirstIndex(s, r[j])
        {
          assert r'[i] in r' && r'[j] in r';
        }
      }
    }
  }

  /** `array_unique` leaves a list without duplicates unchanged. */
  lemma {:induction false} ArrayUniqueOfDistinct(s: seq<int>)
    requires NoDuplicates(s)
    ensures ArrayUnique(s) == s
    decreases |s|
  {
    if s != [] {
      var front := s[..|s| - 1];
      assert NoDuplicates(front) by {
        forall i, j | 0 <= i < j < |front| ensures front[i] != front[j] {
          assert front[i] == s[i] && front[j] == s[j];
        }
      }
      ArrayUniqueOfDistinct(front);
      assert s[|s| - 1] !in front by {
        forall i | 0 <= i < |front| ensures front[i] != s[|s| - 1] {
          assert front[i] == s[i];
        }
      }
      assert s == front + [s[|s| - 1]];
    }
  }

  /** Applying `array_unique` twice is the same as applying it once. */
  lemma ArrayUniqueIdempotent(s: seq<int>)
    ensures ArrayUnique(ArrayUnique(s)) == ArrayUnique(s)
  {
    ArrayUniqueSpec(s);
    ArrayUniqueOfDistinct(ArrayUnique(s));
  }
}
