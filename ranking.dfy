/**
 * Ordering the eligible courses and packing them under the credit cap: `list.sort`
 * with the key (level, -credits), which is stable, and the single greedy pass that
 * admits a course whenever it still fits.
 */
module Ranking {
  import opened SeqUtil
  import opened Eligibility

  /** `a` may come before `b`: lower level first, then more credits first. */
  predicate RanksBefore(a: EligibleCourse, b: EligibleCourse) {
    a.level < b.level || (a.level == b.level && a.credits >= b.credits)
  }

  /** Inserts `x` in front of the first element it may precede. */
  function Insert(x: EligibleCourse, s: seq<EligibleCourse>): seq<EligibleCourse>
  {
    if |s| == 0 then [x]
    else if RanksBefore(x, s[0]) then [x] + s
    else [s[0]] + Insert(x, s[1..])
  }

  /** `sorted(eligibles, key=lambda f: (f['level'], -f['credits']))`, as a stable insertion sort. */
  function RankOrder(s: seq<EligibleCourse>): seq<EligibleCourse>
  {
    if |s| == 0 then [] else Insert(s[0], RankOrder(s[1..]))
  }

  ghost predicate Ranked(s: seq<EligibleCourse>) {
    forall i, j :: 0 <= i < j < |s| ==> RanksBefore(s[i], s[j])
  }

  /** The elements of `s` with the given sort key, in their order in `s`. */
  function WithKey(s: seq<EligibleCourse>, level: int, credits: int): seq<EligibleCourse>
  {
    if |s| == 0 then []
    else (if s[0].level == level && s[0].credits == credits then [s[0]] else []) + WithKey(s[1..], level, credits)
  }

  lemma {:induction false} InsertElements(x: EligibleCourse, s: seq<EligibleCourse>)
    ensures multiset(Insert(x, s)) == multiset(s) + multiset{x}
    ensures forall y :: y in Insert(x, s) <==> y == x || y in s
  {
    if |s| > 0 && !RanksBefore(x, s[0]) {
      InsertElements(x, s[1..]);
      assert s == [s[0]] + s[1..];
    }
  }

  lemma {:induction false} InsertRanked(x: EligibleCourse, s: seq<EligibleCourse>)
    requires Ranked(s)
    ensures Ranked(Insert(x, s))
  {
    if |s| > 0 && !RanksBefore(x, s[0]) {
      InsertRanked(x, s[1..]);
      InsertElements(x, s[1..]);
      var t := Insert(x, s[1..]);
      assert forall y :: y in t ==> RanksBefore(s[0], y) by {
        forall y | y in t ensures RanksBefore(s[0], y) {
          if y != x {
            var k :| 0 <= k < |s[1..]| && s[1..][k] == y;
            assert s[k + 1] == y;
          }
        }
      }
      var u := [s[0]] + t;
      forall i, j | 0 <= i < j < |u| ensures RanksBefore(u[i], u[j]) {
        if i == 0 {
          assert u[j] == t[j - 1];
          assert t[j - 1] in t;
        } else {
          assert u[i] == t[i - 1] && u[j] == t[j - 1];
        }
      }
    }
  }

  /** The sort returns a permutation of its input, ordered by the key. */
  lemma {:induction false} RankOrderSortsAndPermutes(s: seq<EligibleCourse>)
    ensures Ranked(RankOrder(s))
    ensures multiset(RankOrder(s)) == multiset(s)
  {
    if |s| > 0 {
      RankOrderSortsAndPermutes(s[1..]);
      InsertRanked(s[0], RankOrder(s[1..]));
      InsertElements(s[0], RankOrder(s[1..]));
      assert s == [s[0]] + s[1..];
    }
  }

  lemma {:induction false} InsertWithKey(x: EligibleCourse, s: seq<EligibleCourse>, level: int, credits: int)
    ensures WithKey(Insert(x, s), level, credits) ==
              (if x.level == level && x.credits == credits then [x] else []) + WithKey(s, level, credits)
  {
    if |s| > 0 && !RanksBefore(x, s[0]) {
      InsertWithKey(x, s[1..], level, credits);
      assert Insert(x, s)[1..] == Insert(x, s[1..]);
    }
  }

  /** Stability: courses with equal key keep their input order. */
  lemma {:induction false} RankOrderIsStable(s: seq<EligibleCourse>, level: int, credits: int)
    ensures WithKey(RankOrder(s), level, credits) == WithKey(s, level, credits)
  {
    if |s| > 0 {
      RankOrderIsStable(s[1..], level, credits);
      InsertWithKey(s[0], RankOrder(s[1..]), level, credits);
    }
  }

  function SumCredits(s: seq<EligibleCourse>): int
  {
    if |s| == 0 then 0 else SumCredits(s[..|s| - 1]) + s[|s| - 1].credits
  }

  /** The recommendations and the running total after the cap loop has seen `n` courses. */
  datatype Selection = Selection(chosen: seq<EligibleCourse>, total: int)

  function CapPass(ranked: seq<EligibleCourse>, cap: int, n: nat): Selection
    requires n <= |ranked|
  {
    if n == 0 then Selection([], 0)
    else
      var prev := CapPass(ranked, cap, n - 1);
      var c := ranked[n - 1];
      if prev.total + c.credits <= cap then Selection(prev.chosen + [c], prev.total + c.credits)
      else prev
  }

  /** The courses the cap loop admits from `ranked`. */
  function SelectUnderCap(ranked: seq<EligibleCourse>, cap: int): seq<EligibleCourse> {
    CapPass(ranked, cap, |ranked|).chosen
  }

  /**
   * The running total always equals the credits admitted so far, and once anything has
   * been admitted it stays within the cap.
   */
  lemma {:induction false} CapPassInvariant(ranked: seq<EligibleCourse>, cap: int, n: nat)
    requires n <= |ranked|
    ensures CapPass(ranked, cap, n).total == SumCredits(CapPass(ranked, cap, n).chosen)
    ensures CapPass(ranked, cap, n).chosen == [] || CapPass(ranked, cap, n).total <= cap
    ensures IsSubsequence(CapPass(ranked, cap, n).chosen, ranked[..n])
  {
    if n > 0 {
      CapPassInvariant(ranked, cap, n - 1);
      var prev := CapPass(ranked, cap, n - 1);
      var c := ranked[n - 1];
      assert ranked[..n] == ranked[..n - 1] + [c];
      SubsequenceExtend(prev.chosen, ranked[..n - 1], c);
      if prev.total + c.credits <= cap {
        var next := prev.chosen + [c];
        assert CapPass(ranked, cap, n) == Selection(next, prev.total + c.credits);
        assert next[..|next| - 1] == prev.chosen && next[|next| - 1] == c;
        assert SumCredits(next) == SumCredits(prev.chosen) + c.credits;
      } else {
        assert CapPass(ranked, cap, n) == prev;
      }
    }
  }

  /** What the loop has admitted after `n` courses depends only on those `n` courses. */
  lemma {:induction false} CapPassAgree(a: seq<EligibleCourse>, b: seq<EligibleCourse>, cap: int, n: nat)
    requires n <= |a| && n <= |b| && a[..n] == b[..n]
    ensures CapPass(a, cap, n) == CapPass(b, cap, n)
  {
    if n > 0 {
      assert a[..n - 1] == a[..n][..n - 1] && b[..n - 1] == b[..n][..n - 1];
      assert a[n - 1] == a[..n][n - 1] && b[n - 1] == b[..n][n - 1];
      CapPassAgree(a, b, cap, n - 1);
    }
  }

  /** The sum of the admitted credits never exceeds the cap (nothing is admitted when even 0 exceeds it). */
  lemma SelectionWithinCap(ranked: seq<EligibleCourse>, cap: int)
    ensures SelectUnderCap(ranked, cap) == [] || SumCredits(SelectUnderCap(ranked, cap)) <= cap
    ensures IsSubsequence(SelectUnderCap(ranked, cap), ranked)
  {
    CapPassInvariant(ranked, cap, |ranked|);
    assert ranked[..|ranked|] == ranked;
  }

  /**
   * The greedy rule, stated without the running total: course `i` is admitted exactly when
   * the credits admitted before it plus its own still fit, and a course that is passed
   * over adds nothing.
   */
  lemma SelectionStep(ranked: seq<EligibleCourse>, cap: int, i: nat)
    requires i < |ranked|
    ensures var before := SelectUnderCap(ranked[..i], cap);
            SelectUnderCap(ranked[..i + 1], cap) ==
              if SumCredits(before) + ranked[i].credits <= cap then before + [ranked[i]] else before
  {
    var p, q := ranked[..i], ranked[..i + 1];
    assert q[..i] == p == p[..i] && q[..i + 1] == q && q[i] == ranked[i];
    CapPassAgree(q, p, cap, i);
    CapPassInvariant(p, cap, i);
  }
}
