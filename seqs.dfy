/** Generic facts about sequences used by several parts of the model. */
module SeqUtil {
  import opened Wrappers

  /** `a` is obtained from `b` by deleting elements, keeping the order of the rest. */
  ghost predicate IsSubsequence<T>(a: seq<T>, b: seq<T>)
    decreases |b|
  {
    a == [] ||
    (b != [] &&
     ((a[|a| - 1] == b[|b| - 1] && IsSubsequence(a[..|a| - 1], b[..|b| - 1])) ||
      IsSubsequence(a, b[..|b| - 1])))
  }

  /** No element occurs twice. */
  predicate NoDuplicates<T(==)>(s: seq<T>) {
    forall i, j :: 0 <= i < j < |s| ==> s[i] != s[j]
  }

  /** Appending the same element to both sides, or only to the longer one, keeps a subsequence. */
  lemma SubsequenceExtend<T>(a: seq<T>, b: seq<T>, x: T)
    requires IsSubsequence(a, b)
    ensures IsSubsequence(a, b + [x])
    ensures IsSubsequence(a + [x], b + [x])
  {
    assert (b + [x])[..|b|] == b;
    assert (a + [x])[..|a|] == a;
  }

  /** Every element of a subsequence is an element of the whole sequence. */
  lemma {:induction false} SubsequenceElements<T>(a: seq<T>, b: seq<T>)
    requires IsSubsequence(a, b)
    ensures forall x :: x in a ==> x in b
  {
    if a != [] {
      if a[|a| - 1] == b[|b| - 1] && IsSubsequence(a[..|a| - 1], b[..|b| - 1]) {
        SubsequenceElements(a[..|a| - 1], b[..|b| - 1]);
        forall x | x in a ensures x in b {
          if x != a[|a| - 1] {
            assert a == a[..|a| - 1] + [a[|a| - 1]];
            assert x in a[..|a| - 1];
          }
        }
      } else {
        SubsequenceElements(a, b[..|b| - 1]);
      }
    }
  }

  /** The concatenation of `parts`, in order. */
  function Flatten<T>(parts: seq<seq<T>>): seq<T>
  {
    if |parts| == 0 then [] else Flatten(parts[..|parts| - 1]) + parts[|parts| - 1]
  }

  /** An element of the concatenation is an element of one of the parts. */
  lemma {:induction false} FlattenMembers<T>(parts: seq<seq<T>>)
    ensures forall x :: x in Flatten(parts) <==> exists k :: 0 <= k < |parts| && x in parts[k]
  {
    if |parts| > 0 {
      var n := |parts| - 1;
      FlattenMembers(parts[..n]);
      forall x ensures x in Flatten(parts) <==> exists k :: 0 <= k < |parts| && x in parts[k] {
        if x in Flatten(parts[..n]) {
          var k :| 0 <= k < n && x in parts[..n][k];
          assert x in parts[k];
        }
        if exists k :: 0 <= k < |parts| && x in parts[k] {
          var k :| 0 <= k < |parts| && x in parts[k];
          if k < n {
            assert x in parts[..n][k];
          }
        }
      }
    }
  }

  /** The values `f` gives for the elements of `xs`, in order, skipping the `None`s. */
  function FilterSome<T, U>(xs: seq<T>, f: T -> Option<U>): seq<U> {
    if |xs| == 0 then []
    else (match f(xs[0]) case Some(u) => [u] case None => []) + FilterSome(xs[1..], f)
  }

  /** A value is kept exactly when `f` gives it for some element. */
  lemma {:induction false} FilterSomeMembers<T, U>(xs: seq<T>, f: T -> Option<U>)
    ensures forall u :: u in FilterSome(xs, f) <==> exists x :: x in xs && f(x) == Some(u)
  {
    if |xs| > 0 {
      FilterSomeMembers(xs[1..], f);
      assert forall x :: x in xs <==> x == xs[0] || x in xs[1..];
    }
  }

  /** The elements of `xs` that `keep` accepts, in order. */
  function Filter<T>(xs: seq<T>, keep: T -> bool): seq<T> {
    if |xs| == 0 then [] else (if keep(xs[0]) then [xs[0]] else []) + Filter(xs[1..], keep)
  }

  /** Filtering a concatenation filters each part. */
  lemma {:induction false} FilterAppend<T>(a: seq<T>, b: seq<T>, keep: T -> bool)
    ensures Filter(a + b, keep) == Filter(a, keep) + Filter(b, keep)
  {
    if |a| == 0 {
      assert a + b == b;
    } else {
      var head := if keep(a[0]) then [a[0]] else [];
      assert (a + b)[0] == a[0] && (a + b)[1..] == a[1..] + b;
      FilterAppend(a[1..], b, keep);
      assert head + (Filter(a[1..], keep) + Filter(b, keep)) == (head + Filter(a[1..], keep)) + Filter(b, keep);
    }
  }

  /** The first element kept is the first element `keep` accepts. */
  lemma {:induction false} FilterFirst<T>(xs: seq<T>, keep: T -> bool, k: nat)
    requires k < |xs| && keep(xs[k])
    requires forall j :: 0 <= j < k ==> !keep(xs[j])
    ensures Filter(xs, keep) != [] && Filter(xs, keep)[0] == xs[k]
  {
    if k > 0 {
      assert !keep(xs[0]);
      assert forall j :: 0 <= j < k - 1 ==> xs[1..][j] == xs[j + 1];
      FilterFirst(xs[1..], keep, k - 1);
    }
  }
}
